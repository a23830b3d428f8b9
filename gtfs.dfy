/** The records of a GTFS schedule as the loaders of TP_1/aRemettrePourTP1.cpp
    build them, the already-split rows of the feed files, and the reference
    functions that say what each loader leaves in its containers. Times are
    seconds after midnight and dates are already parsed. */
module Gtfs {

  datatype Date = Date(an: nat, mois: nat, jour: nat)

  /** A station's position; its text is never interpreted here. */
  datatype Coordonnees = Coordonnees(latitude: string, longitude: string)

  /** A bus line; `couleur` is the colour field the category is derived from. */
  datatype Ligne = Ligne(id: string, numero: string, description: string, couleur: string)

  /** A visit of a trip to a station. */
  datatype Arret = Arret(station: string, arrivee: int, depart: int, sequence: int, voyage: string)

  datatype Station = Station(id: string, nom: string, description: string,
                             position: Coordonnees, arrets: seq<Arret>)

  datatype Voyage = Voyage(ligne: string, id: string, service: string, destination: string,
                           arrets: seq<Arret>)

  /** (from_station_id, to_station_id, minimum transfer time). */
  datatype Transfert = Transfert(de: string, vers: string, tempsMin: int)

  /** What `m_stations[k]` creates when `k` is not a key yet. */
  const STATION_PAR_DEFAUT := Station("", "", "", Coordonnees("", ""), [])

  // ---------------------------------------------------------------------
  // Rows of the feed files, already split into the fields the loaders read.

  /** routes.txt: fields 0 (route_id), 2 (number), 4 (description), 7 (colour). */
  datatype RangeeLigne = RangeeLigne(id: string, numero: string, description: string, couleur: string)

  /** stops.txt: fields 0 (id), 2 (name), 3 (description), 4 and 5 (position). */
  datatype RangeeStation = RangeeStation(id: string, nom: string, description: string,
                                         latitude: string, longitude: string)

  /** transfers.txt: fields 0 and 1 (stations), the text of field 3 and the
      integer that text reads as. */
  datatype RangeeTransfert = RangeeTransfert(de: string, vers: string, texteTemps: string, tempsLu: int)

  /** calendar_dates.txt: fields 0 (service id), 1 (date) and 2 (exception type). */
  datatype RangeeService = RangeeService(service: string, date: Date, exception: string)

  /** trips.txt: fields 0 (trip id), 1 (service id), 3 (route id), 4 (headsign). */
  datatype RangeeVoyage = RangeeVoyage(id: string, service: string, ligne: string, destination: string)

  /** stop_times.txt: fields 0 (trip id), 1 (arrival), 2 (departure), 3
      (station id) and 4 (sequence number). */
  datatype RangeeArret = RangeeArret(voyage: string, arrivee: int, depart: int, station: string, sequence: int)

  /** The rows a loader processes: all but the first (header) line. */
  function Corps<T>(rangees: seq<T>): seq<T>
  {
    if rangees == [] then [] else rangees[1..]
  }

  /** Counting lines from 0 and skipping line 0, the lines seen once the
      counter passes `c` are the body of the first `c + 1` lines. */
  lemma CorpsSuivant<T>(rangees: seq<T>, c: nat)
    requires c < |rangees|
    ensures c == 0 ==> Corps(rangees[..c + 1]) == []
    ensures c > 0 ==> Corps(rangees[..c + 1]) == Corps(rangees[..c]) + [rangees[c]]
  {
    if c > 0 {
      assert rangees[..c + 1][1..] == rangees[..c][1..] + [rangees[c]];
    }
  }

  // ---------------------------------------------------------------------
  // Keyed insertion that keeps the entry already present (std::map::insert).

  function Inserer<V>(m: map<string, V>, k: string, v: V): map<string, V>
  {
    if k in m then m else m[k := v]
  }

  /** The map after inserting, in order, the entry `(cle(r), valeur(r))` of
      each row `r`. */
  function Indexer<R, V>(m: map<string, V>, rangees: seq<R>, cle: R -> string, valeur: R -> V): map<string, V>
    decreases |rangees|
  {
    if rangees == [] then m
    else
      var r := rangees[|rangees| - 1];
      Inserer(Indexer(m, rangees[..|rangees| - 1], cle, valeur), cle(r), valeur(r))
  }

  /** Inserting one more row inserts its entry into the map built so far. */
  lemma IndexerSuivant<R, V>(m: map<string, V>, rangees: seq<R>, r: R, cle: R -> string, valeur: R -> V)
    ensures Indexer(m, rangees + [r], cle, valeur) == Inserer(Indexer(m, rangees, cle, valeur), cle(r), valeur(r))
  {
    assert (rangees + [r])[..|rangees|] == rangees;
  }

  /** Index of the first row whose key is `k`; -1 when none. */
  function PremierIndice<R>(rangees: seq<R>, cle: R -> string, k: string): (i: int)
    ensures -1 <= i < |rangees|
    ensures i >= 0 ==> cle(rangees[i]) == k
    ensures forall j :: 0 <= j < |rangees| && (i < 0 || j < i) ==> cle(rangees[j]) != k
    decreases |rangees|
  {
    if rangees == [] then -1
    else
      var i := PremierIndice(rangees[..|rangees| - 1], cle, k);
      if i >= 0 then i
      else if cle(rangees[|rangees| - 1]) == k then |rangees| - 1
      else -1
  }

  /** Inserting rows in order keeps every key already present with its value,
      and adds each new key with the value of the first row carrying it. */
  lemma {:induction false} IndexerPremier<R, V>(m: map<string, V>, rangees: seq<R>,
                                                 cle: R -> string, valeur: R -> V)
    ensures forall k :: k in Indexer(m, rangees, cle, valeur) <==> k in m || PremierIndice(rangees, cle, k) >= 0
    ensures forall k :: k in Indexer(m, rangees, cle, valeur) ==>
      Indexer(m, rangees, cle, valeur)[k]
        == if k in m then m[k] else valeur(rangees[PremierIndice(rangees, cle, k)])
    decreases |rangees|
  {
    if rangees != [] {
      var debut := rangees[..|rangees| - 1];
      IndexerPremier(m, debut, cle, valeur);
      forall k ensures PremierIndice(debut, cle, k) >= 0 ==> PremierIndice(rangees, cle, k) == PremierIndice(debut, cle, k) {
      }
    }
  }

  // ---------------------------------------------------------------------
  // ajouterLignes

  function CleLigne(r: RangeeLigne): string { r.id }

  function LigneDe(r: RangeeLigne): Ligne { Ligne(r.id, r.numero, r.description, r.couleur) }

  /** The lines stored under a number (none when the number is no key). */
  function Valeurs(m: map<string, seq<Ligne>>, n: string): seq<Ligne>
  {
    if n in m then m[n] else []
  }

  /** The multimap of lines by number after inserting each row in order:
      every insertion adds an entry after those with the same number. */
  function IndexerParNumero(m: map<string, seq<Ligne>>, rangees: seq<RangeeLigne>): map<string, seq<Ligne>>
    decreases |rangees|
  {
    if rangees == [] then m
    else
      var r := rangees[|rangees| - 1];
      var a := IndexerParNumero(m, rangees[..|rangees| - 1]);
      a[r.numero := Valeurs(a, r.numero) + [LigneDe(r)]]
  }

  /** The lines of the rows with number `n`, in row order. */
  function LignesDeNumero(rangees: seq<RangeeLigne>, n: string): seq<Ligne>
    decreases |rangees|
  {
    if rangees == [] then []
    else
      var r := rangees[|rangees| - 1];
      LignesDeNumero(rangees[..|rangees| - 1], n) + (if r.numero == n then [LigneDe(r)] else [])
  }

  /** Under each number, the lines already there followed by the lines of
      the rows with that number, in row order; a number is a key exactly
      when it was one or some row carries it. */
  lemma {:induction false} IndexerParNumeroValeurs(m: map<string, seq<Ligne>>, rangees: seq<RangeeLigne>)
    ensures forall n :: Valeurs(IndexerParNumero(m, rangees), n) == Valeurs(m, n) + LignesDeNumero(rangees, n)
    ensures forall n :: n in IndexerParNumero(m, rangees) <==> n in m || LignesDeNumero(rangees, n) != []
    decreases |rangees|
  {
    if rangees != [] {
      IndexerParNumeroValeurs(m, rangees[..|rangees| - 1]);
    }
  }

  // ---------------------------------------------------------------------
  // ajouterStations

  function CleStation(r: RangeeStation): string { r.id }

  function StationDe(r: RangeeStation): Station
  {
    Station(r.id, r.nom, r.description, Coordonnees(r.latitude, r.longitude), [])
  }

  // ---------------------------------------------------------------------
  // ajouterTransferts

  /** The minimum time recorded for a row: the text "0" is replaced by "1"
      before it is read; any other text is read as it is. */
  function TempsMin(r: RangeeTransfert): (t: int)
  {
    if r.texteTemps == "0" then 1 else r.tempsLu
  }

  /** A transfer is kept when both of its stations are known. */
  predicate TransfertRetenu(stations: set<string>, r: RangeeTransfert)
  {
    r.de in stations && r.vers in stations
  }

  function TransfertDe(r: RangeeTransfert): Transfert
  {
    Transfert(r.de, r.vers, TempsMin(r))
  }

  /** The transfers appended by the rows, in row order. */
  function TransfertsRetenus(stations: set<string>, rangees: seq<RangeeTransfert>): seq<Transfert>
    decreases |rangees|
  {
    if rangees == [] then []
    else
      var r := rangees[|rangees| - 1];
      TransfertsRetenus(stations, rangees[..|rangees| - 1])
        + (if TransfertRetenu(stations, r) then [TransfertDe(r)] else [])
  }

  /** The from-stations inserted by the rows. */
  function DepartsRetenus(stations: set<string>, rangees: seq<RangeeTransfert>): set<string>
    decreases |rangees|
  {
    if rangees == [] then {}
    else
      var r := rangees[|rangees| - 1];
      DepartsRetenus(stations, rangees[..|rangees| - 1])
        + (if TransfertRetenu(stations, r) then {r.de} else {})
  }

  /** A transfer is appended exactly when some row with both stations known
      yields it, with a zero minimum time recorded as 1; its from-station
      is recorded exactly when such a transfer leaves from it. */
  lemma {:induction false} TransfertsRetenusSpec(stations: set<string>, rangees: seq<RangeeTransfert>)
    ensures forall t :: t in TransfertsRetenus(stations, rangees) <==>
      exists i :: 0 <= i < |rangees| && TransfertRetenu(stations, rangees[i]) && t == TransfertDe(rangees[i])
    ensures forall i :: 0 <= i < |rangees| && TransfertRetenu(stations, rangees[i]) && rangees[i].texteTemps == "0" ==>
      Transfert(rangees[i].de, rangees[i].vers, 1) in TransfertsRetenus(stations, rangees)
    ensures forall d :: d in DepartsRetenus(stations, rangees) <==>
      exists t :: t in TransfertsRetenus(stations, rangees) && t.de == d
    ensures |TransfertsRetenus(stations, rangees)| <= |rangees|
    decreases |rangees|
  {
    if rangees != [] {
      var debut := rangees[..|rangees| - 1];
      TransfertsRetenusSpec(stations, debut);
      forall t | t in TransfertsRetenus(stations, rangees)
        ensures exists i :: 0 <= i < |rangees| && TransfertRetenu(stations, rangees[i]) && t == TransfertDe(rangees[i])
      {
        if t in TransfertsRetenus(stations, debut) {
          var i :| 0 <= i < |debut| && TransfertRetenu(stations, debut[i]) && t == TransfertDe(debut[i]);
          assert rangees[i] == debut[i];
        }
      }
      forall t | exists i :: 0 <= i < |rangees| && TransfertRetenu(stations, rangees[i]) && t == TransfertDe(rangees[i])
        ensures t in TransfertsRetenus(stations, rangees)
      {
        var i :| 0 <= i < |rangees| && TransfertRetenu(stations, rangees[i]) && t == TransfertDe(rangees[i]);
        if i < |debut| {
          assert debut[i] == rangees[i];
        }
      }
      var r := rangees[|rangees| - 1];
      forall d ensures d in DepartsRetenus(stations, rangees) <==>
        exists t :: t in TransfertsRetenus(stations, rangees) && t.de == d
      {
        if d in DepartsRetenus(stations, debut) {
          var t :| t in TransfertsRetenus(stations, debut) && t.de == d;
          assert t in TransfertsRetenus(stations, rangees);
        }
        if TransfertRetenu(stations, r) && r.de == d {
          assert TransfertDe(r) in TransfertsRetenus(stations, rangees);
        }
      }
    }
  }

  // ---------------------------------------------------------------------
  // ajouterServices

  /** A service runs on `date` when its exception type is "1" (added) and its
      date is `date`. */
  predicate ServiceAdmis(date: Date, r: RangeeService)
  {
    r.exception == "1" && r.date == date
  }

  /** The service ids the rows insert. */
  function ServicesAdmis(date: Date, rangees: seq<RangeeService>): set<string>
    decreases |rangees|
  {
    if rangees == [] then {}
    else
      var r := rangees[|rangees| - 1];
      ServicesAdmis(date, rangees[..|rangees| - 1]) + (if ServiceAdmis(date, r) then {r.service} else {})
  }

  /** A service id is inserted exactly when some row adds it on `date`. */
  lemma {:induction false} ServicesAdmisSpec(date: Date, rangees: seq<RangeeService>)
    ensures forall s :: s in ServicesAdmis(date, rangees) <==>
      exists i :: 0 <= i < |rangees| && rangees[i].service == s && ServiceAdmis(date, rangees[i])
    decreases |rangees|
  {
    if rangees != [] {
      var debut := rangees[..|rangees| - 1];
      ServicesAdmisSpec(date, debut);
      forall s | s in ServicesAdmis(date, debut)
        ensures exists i :: 0 <= i < |rangees| && rangees[i].service == s && ServiceAdmis(date, rangees[i])
      {
        var i :| 0 <= i < |debut| && debut[i].service == s && ServiceAdmis(date, debut[i]);
        assert rangees[i] == debut[i];
      }
      forall s | exists i :: 0 <= i < |rangees| && rangees[i].service == s && ServiceAdmis(date, rangees[i])
        ensures s in ServicesAdmis(date, rangees)
      {
        var i :| 0 <= i < |rangees| && rangees[i].service == s && ServiceAdmis(date, rangees[i]);
        if i < |debut| {
          assert debut[i] == rangees[i];
        }
      }
    }
  }

  // ---------------------------------------------------------------------
  // ajouterVoyagesDeLaDate

  /** Trips are stored under their route id, not their trip id. */
  function CleVoyage(r: RangeeVoyage): string { r.ligne }

  function VoyageDe(r: RangeeVoyage): Voyage { Voyage(r.ligne, r.id, r.service, r.destination, []) }

  /** The rows whose service runs on the date, in row order. */
  function VoyagesAdmis(services: set<string>, rangees: seq<RangeeVoyage>): seq<RangeeVoyage>
    decreases |rangees|
  {
    if rangees == [] then []
    else
      var r := rangees[|rangees| - 1];
      VoyagesAdmis(services, rangees[..|rangees| - 1]) + (if r.service in services then [r] else [])
  }

  /** The admitted rows are exactly the rows whose service is known. */
  lemma {:induction false} VoyagesAdmisSpec(services: set<string>, rangees: seq<RangeeVoyage>)
    ensures forall r :: r in VoyagesAdmis(services, rangees) <==> r in rangees && r.service in services
    decreases |rangees|
  {
    if rangees != [] {
      var debut := rangees[..|rangees| - 1];
      VoyagesAdmisSpec(services, debut);
      assert rangees == debut + [rangees[|rangees| - 1]];
    }
  }

  /** After loading trips into `m`: a key is present exactly when it was or
      some row with a known service has that route id; old entries are kept;
      a new entry is the trip of a row with a known service whose route id
      is the key, with no stops yet. */
  lemma VoyagesCharges(m: map<string, Voyage>, services: set<string>, rangees: seq<RangeeVoyage>)
    ensures var r := Indexer(m, VoyagesAdmis(services, rangees), CleVoyage, VoyageDe);
      && (forall k :: k in r <==> k in m || exists v :: v in rangees && v.service in services && v.ligne == k)
      && (forall k :: k in m ==> r[k] == m[k])
      && (forall k :: k in r && k !in m ==>
            r[k].ligne == k && r[k].service in services && r[k].arrets == []
            && exists v :: v in rangees && r[k] == VoyageDe(v))
  {
    var admis := VoyagesAdmis(services, rangees);
    VoyagesAdmisSpec(services, rangees);
    IndexerPremier(m, admis, CleVoyage, VoyageDe);
    var r := Indexer(m, admis, CleVoyage, VoyageDe);
    forall k | exists v :: v in rangees && v.service in services && v.ligne == k
      ensures k in r
    {
      var v :| v in rangees && v.service in services && v.ligne == k;
      var i :| 0 <= i < |admis| && admis[i] == v;
      assert CleVoyage(admis[i]) == k;
    }
    forall k | k in r && k !in m
      ensures exists v :: v in rangees && v.service in services && v.ligne == k
      ensures r[k].ligne == k && r[k].service in services && r[k].arrets == []
      ensures exists v :: v in rangees && r[k] == VoyageDe(v)
    {
      var v := admis[PremierIndice(admis, CleVoyage, k)];
      assert v in admis;
    }
  }

  // ---------------------------------------------------------------------
  // ajouterArretsDesVoyagesDeLaDate

  /** A stop is kept when its trip key is known, it arrives before `now2`
      and it leaves at or after `now1`. */
  predicate ArretAdmis(voyages: set<string>, now1: int, now2: int, r: RangeeArret)
  {
    r.voyage in voyages && now2 > r.arrivee && r.depart >= now1
  }

  function ArretDe(r: RangeeArret): Arret { Arret(r.station, r.arrivee, r.depart, r.sequence, r.voyage) }

  /** The stops created by the rows, in row order. */
  function ArretsAdmis(voyages: set<string>, now1: int, now2: int, rangees: seq<RangeeArret>): seq<Arret>
    decreases |rangees|
  {
    if rangees == [] then []
    else
      var r := rangees[|rangees| - 1];
      ArretsAdmis(voyages, now1, now2, rangees[..|rangees| - 1])
        + (if ArretAdmis(voyages, now1, now2, r) then [ArretDe(r)] else [])
  }

  /** A stop is created exactly when some row is admitted and yields it. */
  lemma {:induction false} ArretsAdmisSpec(voyages: set<string>, now1: int, now2: int, rangees: seq<RangeeArret>)
    ensures forall a :: a in ArretsAdmis(voyages, now1, now2, rangees) <==>
      exists r :: r in rangees && ArretAdmis(voyages, now1, now2, r) && a == ArretDe(r)
    ensures |ArretsAdmis(voyages, now1, now2, rangees)| <= |rangees|
    decreases |rangees|
  {
    if rangees != [] {
      var debut := rangees[..|rangees| - 1];
      ArretsAdmisSpec(voyages, now1, now2, debut);
      assert rangees == debut + [rangees[|rangees| - 1]];
    }
  }

  /** A trip with the stop `a` appended. */
  function AvecArretVoyage(v: Voyage, a: Arret): Voyage { v.(arrets := v.arrets + [a]) }

  /** A station's stops are indexed by arrival time: they are kept sorted
      on `arrivee`. */
  predicate TrieeParArrivee(l: seq<Arret>)
  {
    forall i, j :: 0 <= i < j < |l| ==> l[i].arrivee <= l[j].arrivee
  }

  /** Where a multimap keyed by arrival time inserts a stop arriving at `t`:
      the first position whose stop arrives after `t`, which is after
      every stop arriving at or before `t` when the stops are sorted. */
  function BorneSuperieure(l: seq<Arret>, t: int): (k: nat)
    ensures k <= |l|
    ensures forall i :: 0 <= i < k ==> l[i].arrivee <= t
    ensures k < |l| ==> l[k].arrivee > t
    decreases |l|
  {
    if l == [] then 0
    else if l[0].arrivee > t then 0
    else 1 + BorneSuperieure(l[1..], t)
  }

  /** In a sorted list, every stop from that position on arrives after `t`. */
  lemma BorneTriee(l: seq<Arret>, t: int)
    requires TrieeParArrivee(l)
    ensures forall i :: BorneSuperieure(l, t) <= i < |l| ==> l[i].arrivee > t
  {
    var k := BorneSuperieure(l, t);
    forall i | k <= i < |l| ensures l[i].arrivee > t {
      assert l[k].arrivee <= l[i].arrivee;
    }
  }

  /** The stops `l` with `a` inserted at the end of its arrival time's
      equal range. */
  function InsererParArrivee(l: seq<Arret>, a: Arret): seq<Arret>
  {
    var k := BorneSuperieure(l, a.arrivee);
    l[..k] + [a] + l[k..]
  }

  /** Inserting a stop adds exactly that stop, stops arriving no later stay
      before it, later ones after it, and a sorted list stays sorted. */
  lemma InsererParArriveeSpec(l: seq<Arret>, a: Arret)
    ensures multiset(InsererParArrivee(l, a)) == multiset(l) + multiset{a}
    ensures |InsererParArrivee(l, a)| == |l| + 1
    ensures var k := BorneSuperieure(l, a.arrivee);
      && InsererParArrivee(l, a)[k] == a
      && (forall i :: 0 <= i < k ==> InsererParArrivee(l, a)[i] == l[i] && l[i].arrivee <= a.arrivee)
      && (forall i :: k < i < |l| + 1 ==> InsererParArrivee(l, a)[i] == l[i - 1])
      && (TrieeParArrivee(l) ==> forall i :: k <= i < |l| ==> l[i].arrivee > a.arrivee)
    ensures TrieeParArrivee(l) ==> TrieeParArrivee(InsererParArrivee(l, a))
  {
    InsererParArriveeContenu(l, a);
    InsererParArriveePlace(l, a, BorneSuperieure(l, a.arrivee));
    if TrieeParArrivee(l) {
      InsererParArriveeTriee(l, a);
    }
  }

  lemma InsererParArriveeTriee(l: seq<Arret>, a: Arret)
    requires TrieeParArrivee(l)
    ensures TrieeParArrivee(InsererParArrivee(l, a))
  {
    var k := BorneSuperieure(l, a.arrivee);
    BorneTriee(l, a.arrivee);
    InsererDansTriee(l, a, k);
  }

  lemma InsererParArriveeContenu(l: seq<Arret>, a: Arret)
    ensures multiset(InsererParArrivee(l, a)) == multiset(l) + multiset{a}
    ensures |InsererParArrivee(l, a)| == |l| + 1
  {
    var k := BorneSuperieure(l, a.arrivee);
    assert l == l[..k] + l[k..];
  }

  lemma InsererParArriveePlace(l: seq<Arret>, a: Arret, k: nat)
    requires k == BorneSuperieure(l, a.arrivee)
    ensures k < |InsererParArrivee(l, a)| && InsererParArrivee(l, a)[k] == a
    ensures forall i :: 0 <= i < k ==> InsererParArrivee(l, a)[i] == l[i] && l[i].arrivee <= a.arrivee
    ensures forall i :: k < i < |l| + 1 ==> InsererParArrivee(l, a)[i] == l[i - 1]
    ensures TrieeParArrivee(l) ==> forall i :: k <= i < |l| ==> l[i].arrivee > a.arrivee
  {
    if TrieeParArrivee(l) {
      BorneTriee(l, a.arrivee);
    }
    var r := l[..k] + [a] + l[k..];
    assert InsererParArrivee(l, a) == r;
    forall i | k < i < |l| + 1 ensures r[i] == l[i - 1] {
      assert r[i] == l[k..][i - k - 1];
    }
  }

  /** Inserting `a` at position `k`, after every stop arriving no later and
      before every stop arriving later, keeps a list sorted. */
  lemma InsererDansTriee(l: seq<Arret>, a: Arret, k: nat)
    requires TrieeParArrivee(l) && k <= |l|
    requires forall i :: 0 <= i < k ==> l[i].arrivee <= a.arrivee
    requires forall i :: k <= i < |l| ==> l[i].arrivee > a.arrivee
    ensures TrieeParArrivee(l[..k] + [a] + l[k..])
  {
    var r := l[..k] + [a] + l[k..];
    forall i, j | 0 <= i < j < |r| ensures r[i].arrivee <= r[j].arrivee {
      if j < k {
        assert r[i] == l[i] && r[j] == l[j];
      } else if j == k {
        assert r[i] == l[i];
      } else if i < k {
        assert r[i] == l[i] && r[j] == l[j - 1];
      } else if i == k {
        assert r[j] == l[j - 1];
      } else {
        assert r[i] == l[i - 1] && r[j] == l[j - 1];
      }
    }
  }

  /** The stops `l` with each stop of `arrets` inserted in turn. */
  function InsererTous(l: seq<Arret>, arrets: seq<Arret>): seq<Arret>
    decreases |arrets|
  {
    if arrets == [] then l
    else InsererParArrivee(InsererTous(l, arrets[..|arrets| - 1]), arrets[|arrets| - 1])
  }

  /** Inserting stops in turn adds exactly those stops and keeps a sorted
      list sorted. */
  lemma {:induction false} InsererTousSpec(l: seq<Arret>, arrets: seq<Arret>)
    ensures multiset(InsererTous(l, arrets)) == multiset(l) + multiset(arrets)
    ensures |InsererTous(l, arrets)| == |l| + |arrets|
    ensures TrieeParArrivee(l) ==> TrieeParArrivee(InsererTous(l, arrets))
    decreases |arrets|
  {
    if arrets != [] {
      var debut, a := arrets[..|arrets| - 1], arrets[|arrets| - 1];
      var avant := InsererTous(l, debut);
      InsererTousSpec(l, debut);
      InsererParArriveeContenu(avant, a);
      assert InsererTous(l, arrets) == InsererParArrivee(avant, a);
      assert arrets == debut + [a];
      assert multiset(arrets) == multiset(debut) + multiset{a};
      if TrieeParArrivee(l) {
        InsererTousTriee(l, arrets, avant);
      }
    }
  }

  /** The last insertion of InsererTous keeps the list sorted. */
  lemma InsererTousTriee(l: seq<Arret>, arrets: seq<Arret>, avant: seq<Arret>)
    requires arrets != [] && avant == InsererTous(l, arrets[..|arrets| - 1])
    requires TrieeParArrivee(avant)
    ensures TrieeParArrivee(InsererTous(l, arrets))
  {
    InsererParArriveeTriee(avant, arrets[|arrets| - 1]);
  }

  /** A station with the stop `a` filed by its arrival time. */
  function AvecArretStation(s: Station, a: Arret): Station { s.(arrets := InsererParArrivee(s.arrets, a)) }

  /** The trips after appending each stop, in order, to the trip it names. */
  function AjouterAuxVoyages(m: map<string, Voyage>, arrets: seq<Arret>): (r: map<string, Voyage>)
    ensures r.Keys == m.Keys
    decreases |arrets|
  {
    if arrets == [] then m
    else
      var a := arrets[|arrets| - 1];
      var p := AjouterAuxVoyages(m, arrets[..|arrets| - 1]);
      if a.voyage in p then p[a.voyage := AvecArretVoyage(p[a.voyage], a)] else p
  }

  /** The station stored under `k`, or the one `m_stations[k]` would create. */
  function StationOuDefaut(m: map<string, Station>, k: string): Station
  {
    if k in m then m[k] else STATION_PAR_DEFAUT
  }

  /** The stations after appending each stop, in order, to its station,
      created first with default contents when unknown. */
  function AjouterAuxStations(m: map<string, Station>, arrets: seq<Arret>): map<string, Station>
    decreases |arrets|
  {
    if arrets == [] then m
    else
      var a := arrets[|arrets| - 1];
      var p := AjouterAuxStations(m, arrets[..|arrets| - 1]);
      p[a.station := AvecArretStation(StationOuDefaut(p, a.station), a)]
  }

  /** The stops of `arrets` that belong to trip `k`, in order. */
  function DuVoyage(arrets: seq<Arret>, k: string): seq<Arret>
    decreases |arrets|
  {
    if arrets == [] then []
    else
      var a := arrets[|arrets| - 1];
      DuVoyage(arrets[..|arrets| - 1], k) + (if a.voyage == k then [a] else [])
  }

  /** The stops of `arrets` at station `k`, in order. */
  function DeLaStation(arrets: seq<Arret>, k: string): seq<Arret>
    decreases |arrets|
  {
    if arrets == [] then []
    else
      var a := arrets[|arrets| - 1];
      DeLaStation(arrets[..|arrets| - 1], k) + (if a.station == k then [a] else [])
  }

  /** Each trip keeps its fields and gains, after its old stops, exactly the
      stops that name it, in order. */
  lemma {:induction false} AjouterAuxVoyagesSpec(m: map<string, Voyage>, arrets: seq<Arret>)
    ensures forall k :: k in m ==>
      AjouterAuxVoyages(m, arrets)[k] == m[k].(arrets := m[k].arrets + DuVoyage(arrets, k))
    decreases |arrets|
  {
    if arrets != [] {
      AjouterAuxVoyagesSpec(m, arrets[..|arrets| - 1]);
    }
  }

  /** A station is a key exactly when it was or some stop names it; each
      keeps its fields (a new one those of the default station) and has
      the stops at it inserted, in order, by arrival time. */
  lemma {:induction false} AjouterAuxStationsSpec(m: map<string, Station>, arrets: seq<Arret>)
    ensures forall k :: k in AjouterAuxStations(m, arrets) <==> k in m || DeLaStation(arrets, k) != []
    ensures forall k :: k in AjouterAuxStations(m, arrets) ==>
      AjouterAuxStations(m, arrets)[k]
        == StationOuDefaut(m, k).(arrets := InsererTous(StationOuDefaut(m, k).arrets, DeLaStation(arrets, k)))
    decreases |arrets|
  {
    if arrets != [] {
      var debut, a := arrets[..|arrets| - 1], arrets[|arrets| - 1];
      AjouterAuxStationsSpec(m, debut);
      var p := AjouterAuxStations(m, debut);
      var r := AjouterAuxStations(m, arrets);
      assert r == p[a.station := AvecArretStation(StationOuDefaut(p, a.station), a)];
      forall k | k in r
        ensures r[k] == StationOuDefaut(m, k).(arrets := InsererTous(StationOuDefaut(m, k).arrets, DeLaStation(arrets, k)))
      {
        var ms := StationOuDefaut(m, k);
        var dl := DeLaStation(debut, k);
        if k == a.station {
          assert DeLaStation(arrets, k) == dl + [a];
          assert (dl + [a])[..|dl|] == dl;
          assert InsererTous(ms.arrets, dl + [a]) == InsererParArrivee(InsererTous(ms.arrets, dl), a);
          assert StationOuDefaut(p, k) == ms.(arrets := InsererTous(ms.arrets, dl));
        } else {
          assert DeLaStation(arrets, k) == dl;
          assert r[k] == p[k];
        }
      }
    }
  }

  /** Loading one more stop `a` updates its trip (when known) and its
      station (created by default when unknown) and nothing else. */
  lemma ArretSuivant(v: map<string, Voyage>, s: map<string, Station>, admis: seq<Arret>, a: Arret)
    ensures AjouterAuxVoyages(v, admis + [a])
      == if a.voyage in AjouterAuxVoyages(v, admis)
         then AjouterAuxVoyages(v, admis)[a.voyage := AvecArretVoyage(AjouterAuxVoyages(v, admis)[a.voyage], a)]
         else AjouterAuxVoyages(v, admis)
    ensures AjouterAuxStations(s, admis + [a])
      == AjouterAuxStations(s, admis)[a.station := AvecArretStation(StationOuDefaut(AjouterAuxStations(s, admis), a.station), a)]
  {
    assert (admis + [a])[..|admis|] == admis;
  }

  /** The trips left by the first pruning loop: those with at least one stop. */
  function ElaguerVoyages(m: map<string, Voyage>): map<string, Voyage>
  {
    map k | k in m && |m[k].arrets| > 0 :: m[k]
  }

  /** The stations left by the second pruning loop: those with at least one stop. */
  function ElaguerStations(m: map<string, Station>): map<string, Station>
  {
    map k | k in m && |m[k].arrets| > 0 :: m[k]
  }

  /** What the stop loader leaves behind, from trips `v` and stations `s`:
      a trip remains exactly when it was present and has a stop, old or
      new; a station remains exactly when it was present or received a
      stop, and has a stop; a remaining trip carries its old stops followed
      by its new ones, a remaining station its old and new stops merged by
      arrival time (sorted when its old stops were); none is left without
      stops. */
  lemma ChargementArrets(v: map<string, Voyage>, s: map<string, Station>, arrets: seq<Arret>)
    ensures var r := ElaguerVoyages(AjouterAuxVoyages(v, arrets));
      && (forall k :: k in r <==> k in v && |v[k].arrets| + |DuVoyage(arrets, k)| > 0)
      && (forall k :: k in r ==> r[k] == v[k].(arrets := v[k].arrets + DuVoyage(arrets, k)))
      && (forall k :: k in r ==> |r[k].arrets| > 0)
    ensures var r := ElaguerStations(AjouterAuxStations(s, arrets));
      && (forall k :: k in r <==>
            (k in s || DeLaStation(arrets, k) != []) && |StationOuDefaut(s, k).arrets| + |DeLaStation(arrets, k)| > 0)
      && (forall k :: k in r ==>
            && r[k] == StationOuDefaut(s, k).(arrets := r[k].arrets)
            && multiset(r[k].arrets) == multiset(StationOuDefaut(s, k).arrets) + multiset(DeLaStation(arrets, k))
            && (TrieeParArrivee(StationOuDefaut(s, k).arrets) ==> TrieeParArrivee(r[k].arrets)))
      && (forall k :: k in r ==> |r[k].arrets| > 0)
  {
    AjouterAuxVoyagesSpec(v, arrets);
    AjouterAuxStationsSpec(s, arrets);
    forall k ensures
      && multiset(InsererTous(StationOuDefaut(s, k).arrets, DeLaStation(arrets, k)))
           == multiset(StationOuDefaut(s, k).arrets) + multiset(DeLaStation(arrets, k))
      && |InsererTous(StationOuDefaut(s, k).arrets, DeLaStation(arrets, k))|
           == |StationOuDefaut(s, k).arrets| + |DeLaStation(arrets, k)|
      && (TrieeParArrivee(StationOuDefaut(s, k).arrets) ==>
            TrieeParArrivee(InsererTous(StationOuDefaut(s, k).arrets, DeLaStation(arrets, k))))
    {
      InsererTousSpec(StationOuDefaut(s, k).arrets, DeLaStation(arrets, k));
    }
  }

  /** Stations whose stops were sorted by arrival still are after the stop
      loader. */
  lemma StationsTriees(s: map<string, Station>, arrets: seq<Arret>)
    ensures (forall k :: k in s ==> TrieeParArrivee(s[k].arrets)) ==>
      forall k :: k in ElaguerStations(AjouterAuxStations(s, arrets)) ==>
        TrieeParArrivee(ElaguerStations(AjouterAuxStations(s, arrets))[k].arrets)
  {
    if forall k :: k in s ==> TrieeParArrivee(s[k].arrets) {
      var r := ElaguerStations(AjouterAuxStations(s, arrets));
      forall k | k in r ensures TrieeParArrivee(r[k].arrets) {
        ChargementArrets(map[], s, arrets);
        assert TrieeParArrivee(StationOuDefaut(s, k).arrets);
      }
    }
  }
}
