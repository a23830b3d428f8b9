/** The GTFS container object of TP_1/aRemettrePourTP1.cpp and its loaders.
    Each loader reads the rows of one feed file, skips the header line with
    a line counter, and updates the member containers in place; each is
    proved to leave exactly the contents given by the reference functions
    of module Gtfs, whose properties are proved there. */
module Chargement {
  import opened Gtfs

  class DonneesGtfs {
    /** The date, and the interval [now1, now2) of the day, being loaded. */
    const date: Date
    const now1: int
    const now2: int

    var lignes: map<string, Ligne>
    /** A multimap: every line stored under its number, in insertion order. */
    var lignesParNumero: map<string, seq<Ligne>>
    var stations: map<string, Station>
    var transferts: seq<Transfert>
    var stationsDeTransfert: set<string>
    var services: set<string>
    var voyages: map<string, Voyage>
    var nbArrets: nat
    var tousLesArretsPresents: bool

    constructor(date: Date, now1: int, now2: int)
      ensures this.date == date && this.now1 == now1 && this.now2 == now2
      ensures lignes == map[] && lignesParNumero == map[] && stations == map[]
      ensures transferts == [] && stationsDeTransfert == {} && services == {}
      ensures voyages == map[] && nbArrets == 0 && !tousLesArretsPresents
    {
      this.date, this.now1, this.now2 := date, now1, now2;
      lignes, lignesParNumero, stations := map[], map[], map[];
      transferts, stationsDeTransfert, services := [], {}, {};
      voyages, nbArrets, tousLesArretsPresents := map[], 0, false;
    }

    /** ajouterLignes: each line is inserted under its id (an id already
        present keeps its line) and added under its number. */
    method AjouterLignes(rangees: seq<RangeeLigne>)
      modifies this`lignes, this`lignesParNumero
      ensures lignes == Indexer(old(lignes), Corps(rangees), CleLigne, LigneDe)
      ensures lignesParNumero == IndexerParNumero(old(lignesParNumero), Corps(rangees))
    {
      var compteur := 0;
      while compteur < |rangees|
        invariant compteur <= |rangees|
        invariant lignes == Indexer(old(lignes), Corps(rangees[..compteur]), CleLigne, LigneDe)
        invariant lignesParNumero == IndexerParNumero(old(lignesParNumero), Corps(rangees[..compteur]))
      {
        CorpsSuivant(rangees, compteur);
        if compteur > 0 {
          ghost var vus := Corps(rangees[..compteur]);
          var r := rangees[compteur];
          var ligne := LigneDe(r);
          IndexerSuivant(old(lignes), vus, r, CleLigne, LigneDe);
          if r.id !in lignes {
            lignes := lignes[r.id := ligne];
          }
          lignesParNumero := lignesParNumero[r.numero := Valeurs(lignesParNumero, r.numero) + [ligne]];
          assert (vus + [r])[..|vus|] == vus;
        }
        compteur := compteur + 1;
      }
      assert rangees[..compteur] == rangees;
    }

    /** ajouterStations: each station is inserted under its id; an id
        already present keeps its station. */
    method AjouterStations(rangees: seq<RangeeStation>)
      modifies this`stations
      ensures stations == Indexer(old(stations), Corps(rangees), CleStation, StationDe)
    {
      var compteur := 0;
      while compteur < |rangees|
        invariant compteur <= |rangees|
        invariant stations == Indexer(old(stations), Corps(rangees[..compteur]), CleStation, StationDe)
      {
        CorpsSuivant(rangees, compteur);
        if compteur > 0 {
          ghost var vus := Corps(rangees[..compteur]);
          var r := rangees[compteur];
          IndexerSuivant(old(stations), vus, r, CleStation, StationDe);
          if r.id !in stations {
            stations := stations[r.id := StationDe(r)];
          }
          assert (vus + [r])[..|vus|] == vus;
        }
        compteur := compteur + 1;
      }
      assert rangees[..compteur] == rangees;
    }

    /** ajouterTransferts: a row whose two stations are known appends its
        transfer (a minimum time "0" recorded as 1) and records its
        from-station; any other row changes nothing. */
    method AjouterTransferts(rangees: seq<RangeeTransfert>)
      modifies this`transferts, this`stationsDeTransfert
      ensures transferts == old(transferts) + TransfertsRetenus(stations.Keys, Corps(rangees))
      ensures stationsDeTransfert == old(stationsDeTransfert) + DepartsRetenus(stations.Keys, Corps(rangees))
    {
      var compteur := 0;
      while compteur < |rangees|
        invariant compteur <= |rangees|
        invariant transferts == old(transferts) + TransfertsRetenus(stations.Keys, Corps(rangees[..compteur]))
        invariant stationsDeTransfert == old(stationsDeTransfert) + DepartsRetenus(stations.Keys, Corps(rangees[..compteur]))
      {
        CorpsSuivant(rangees, compteur);
        if compteur > 0 {
          ghost var vus := Corps(rangees[..compteur]);
          var r := rangees[compteur];
          var tempsMin := TempsMin(r);
          if r.de in stations && r.vers in stations {
            transferts := transferts + [Transfert(r.de, r.vers, tempsMin)];
            stationsDeTransfert := stationsDeTransfert + {r.de};
          }
          assert (vus + [r])[..|vus|] == vus;
        }
        compteur := compteur + 1;
      }
      assert rangees[..compteur] == rangees;
    }

    /** ajouterServices: the id of every service added on `date` is
        inserted. */
    method AjouterServices(rangees: seq<RangeeService>)
      modifies this`services
      ensures services == old(services) + ServicesAdmis(date, Corps(rangees))
    {
      var compteur := 0;
      while compteur < |rangees|
        invariant compteur <= |rangees|
        invariant services == old(services) + ServicesAdmis(date, Corps(rangees[..compteur]))
      {
        CorpsSuivant(rangees, compteur);
        if compteur > 0 {
          ghost var vus := Corps(rangees[..compteur]);
          var r := rangees[compteur];
          if r.exception == "1" && r.date == date {
            services := services + {r.service};
          }
          assert (vus + [r])[..|vus|] == vus;
        }
        compteur := compteur + 1;
      }
      assert rangees[..compteur] == rangees;
    }

    /** ajouterVoyagesDeLaDate: each row after the header is handled by
        AjouterVoyageDeLaDate, in order. */
    method AjouterVoyagesDeLaDate(rangees: seq<RangeeVoyage>)
      modifies this`voyages
      ensures voyages == Indexer(old(voyages), VoyagesAdmis(services, Corps(rangees)), CleVoyage, VoyageDe)
    {
      ghost var admis: seq<RangeeVoyage> := [];
      var compteur := 0;
      while compteur < |rangees|
        invariant compteur <= |rangees|
        invariant admis == VoyagesAdmis(services, Corps(rangees[..compteur]))
        invariant voyages == Indexer(old(voyages), admis, CleVoyage, VoyageDe)
      {
        CorpsSuivant(rangees, compteur);
        if compteur > 0 {
          ghost var vus := Corps(rangees[..compteur]);
          var r := rangees[compteur];
          AjouterVoyageDeLaDate(r);
          assert (vus + [r])[..|vus|] == vus;
          if r.service in services {
            assert VoyagesAdmis(services, vus + [r]) == admis + [r];
            IndexerSuivant(old(voyages), admis, r, CleVoyage, VoyageDe);
            admis := admis + [r];
          } else {
            assert VoyagesAdmis(services, vus + [r]) == admis;
          }
        }
        compteur := compteur + 1;
      }
      assert rangees[..compteur] == rangees;
    }

    /** ajouterArretsDesVoyagesDeLaDate: each row after the header is
        handled by AjouterArret, in order; then the trips and the stations
        without stops are erased, and the flag is raised. */
    method AjouterArretsDesVoyagesDeLaDate(rangees: seq<RangeeArret>)
      modifies this`voyages, this`stations, this`nbArrets, this`tousLesArretsPresents
      ensures var admis := ArretsAdmis(old(voyages).Keys, now1, now2, Corps(rangees));
        && voyages == ElaguerVoyages(AjouterAuxVoyages(old(voyages), admis))
        && stations == ElaguerStations(AjouterAuxStations(old(stations), admis))
        && nbArrets == old(nbArrets) + |admis|
      ensures (forall k :: k in old(stations) ==> TrieeParArrivee(old(stations)[k].arrets)) ==>
        forall k :: k in stations ==> TrieeParArrivee(stations[k].arrets)
      ensures tousLesArretsPresents
    {
      ghost var cles := voyages.Keys;
      ghost var admis: seq<Arret> := [];
      var compteur := 0;
      while compteur < |rangees|
        invariant compteur <= |rangees|
        invariant admis == ArretsAdmis(cles, now1, now2, Corps(rangees[..compteur]))
        invariant voyages == AjouterAuxVoyages(old(voyages), admis)
        invariant stations == AjouterAuxStations(old(stations), admis)
        invariant nbArrets == old(nbArrets) + |admis|
      {
        CorpsSuivant(rangees, compteur);
        if compteur > 0 {
          ghost var vus := Corps(rangees[..compteur]);
          var r := rangees[compteur];
          assert (vus + [r])[..|vus|] == vus;
          AjouterArret(r);
          if ArretAdmis(cles, now1, now2, r) {
            ArretSuivant(old(voyages), old(stations), admis, ArretDe(r));
            assert ArretsAdmis(cles, now1, now2, vus + [r]) == admis + [ArretDe(r)];
            admis := admis + [ArretDe(r)];
          } else {
            assert ArretsAdmis(cles, now1, now2, vus + [r]) == admis;
          }
        }
        compteur := compteur + 1;
      }
      assert rangees[..compteur] == rangees;

      ElaguerLesVoyages();
      ElaguerLesStations();
      StationsTriees(old(stations), admis);
      tousLesArretsPresents := true;
    }

    /** The body of the loop of ajouterVoyagesDeLaDate: the services are
        scanned for the row's service id; on a match the trip is inserted
        under its route id (a key already present keeps its trip). */
    method AjouterVoyageDeLaDate(r: RangeeVoyage)
      modifies this`voyages
      ensures voyages == if r.service in services then Inserer(old(voyages), r.ligne, VoyageDe(r)) else old(voyages)
    {
      var voyage := VoyageDe(r);
      var restants := services;
      while restants != {}
        invariant restants <= services
        invariant voyages == if r.service in services - restants then Inserer(old(voyages), r.ligne, voyage) else old(voyages)
        decreases restants
      {
        var s :| s in restants;
        if s == r.service {
          if r.ligne !in voyages {
            voyages := voyages[r.ligne := voyage];
          }
        }
        restants := restants - {s};
      }
    }

    /** The body of the loop of ajouterArretsDesVoyagesDeLaDate: a stop of a
        known trip key that arrives before `now2` and leaves at or after
        `now1` is appended to its trip, filed by arrival time in its station
        (created by default when unknown) and counted; any other row changes
        nothing. */
    method AjouterArret(r: RangeeArret)
      modifies this`voyages, this`stations, this`nbArrets
      ensures ArretAdmis(old(voyages).Keys, now1, now2, r) ==>
        && voyages == old(voyages)[r.voyage := AvecArretVoyage(old(voyages)[r.voyage], ArretDe(r))]
        && stations == old(stations)[r.station := AvecArretStation(StationOuDefaut(old(stations), r.station), ArretDe(r))]
        && nbArrets == old(nbArrets) + 1
      ensures !ArretAdmis(old(voyages).Keys, now1, now2, r) ==>
        voyages == old(voyages) && stations == old(stations) && nbArrets == old(nbArrets)
    {
      if r.voyage in voyages {
        if now2 > r.arrivee && r.depart >= now1 {
          var arret := ArretDe(r);
          voyages := voyages[r.voyage := AvecArretVoyage(voyages[r.voyage], arret)];
          stations := stations[r.station := AvecArretStation(StationOuDefaut(stations, r.station), arret)];
          nbArrets := nbArrets + 1;
        }
      }
    }

    /** The first erase-while-iterating loop of ajouterArretsDesVoyagesDeLaDate:
        erases every trip without stops. */
    method ElaguerLesVoyages()
      modifies this`voyages
      ensures voyages == ElaguerVoyages(old(voyages))
    {
      var restantes := voyages.Keys;
      while restantes != {}
        invariant restantes <= old(voyages).Keys
        invariant voyages == map k | k in old(voyages) && (k in restantes || |old(voyages)[k].arrets| > 0)
                               :: old(voyages)[k]
        decreases restantes
      {
        var k :| k in restantes;
        if |voyages[k].arrets| == 0 {
          voyages := voyages - {k};
        }
        restantes := restantes - {k};
      }
    }

    /** The second erase-while-iterating loop of ajouterArretsDesVoyagesDeLaDate:
        erases every station without stops. */
    method ElaguerLesStations()
      modifies this`stations
      ensures stations == ElaguerStations(old(stations))
    {
      var restantes := stations.Keys;
      while restantes != {}
        invariant restantes <= old(stations).Keys
        invariant stations == map k | k in old(stations) && (k in restantes || |old(stations)[k].arrets| > 0)
                                :: old(stations)[k]
        decreases restantes
      {
        var k :| k in restantes;
        if |stations[k].arrets| == 0 {
          stations := stations - {k};
        }
        restantes := restantes - {k};
      }
    }
  }
}
