/** The weighted directed graph of TP_3/graphe.cpp: a vector of adjacency
    lists and an arc counter, both updated in place by the graph's methods. */
module Graphes {
  import opened Adjacence
  import opened Chemins

  /** The `logic_error` cases of the graph's operations. */
  datatype Erreur = SommetIInexistant | SommetJInexistant | PoidsInterdit | ListeVide | ArcInexistant

  /** Outcome of an operation that returns nothing or throws. */
  datatype Issue = Reussi | Echoue(erreur: Erreur)

  /** Outcome of an operation that returns a value or throws. */
  datatype Resultat<T> = Ok(valeur: T) | Echec(erreur: Erreur)

  class Graphe {
    /** m_listesAdj: one adjacency list per vertex. */
    var listesAdj: seq<seq<Arc>>
    /** m_nbArcs */
    var nbArcs: nat

    /** The arc counter is the number of stored arcs, and no stored arc
        carries the forbidden weight. */
    ghost predicate Valid()
      reads this
    {
      && nbArcs == NbArcsTotal(listesAdj)
      && forall i, k :: 0 <= i < |listesAdj| && 0 <= k < |listesAdj[i]| ==> listesAdj[i][k].poids < INFINI
    }

    /** Graphe(p_nbSommets): `nbSommets` empty lists and no arc. */
    constructor (nbSommets: nat)
      ensures Valid()
      ensures |listesAdj| == nbSommets && nbArcs == 0
      ensures forall i :: 0 <= i < nbSommets ==> listesAdj[i] == []
    {
      var vides: seq<seq<Arc>> := seq(nbSommets, _ => []);
      NbArcsTotalNul(vides);
      listesAdj := vides;
      nbArcs := 0;
    }

    /** resize: keeps the first lists, drops the trailing ones (taking their
        arcs off the counter) or appends empty ones. Arcs of the kept lists
        that point at dropped vertices stay where they are. */
    method Resize(nouvelleTaille: nat)
      requires Valid()
      modifies this
      ensures Valid()
      ensures listesAdj == Redimensionne(old(listesAdj), nouvelleTaille)
      ensures nouvelleTaille < |old(listesAdj)| ==>
        nbArcs == old(nbArcs) - NbArcsTotal(old(listesAdj)[nouvelleTaille..])
      ensures nouvelleTaille >= |old(listesAdj)| ==> nbArcs == old(nbArcs)
    {
      if nouvelleTaille < |listesAdj| {
        var i := nouvelleTaille;
        assert listesAdj == listesAdj[..nouvelleTaille] + listesAdj[nouvelleTaille..];
        NbArcsTotalConcat(listesAdj[..nouvelleTaille], listesAdj[nouvelleTaille..]);
        while i < |listesAdj|
          invariant nouvelleTaille <= i <= |listesAdj|
          invariant listesAdj == old(listesAdj)
          invariant nbArcs == NbArcsTotal(listesAdj[..nouvelleTaille]) + NbArcsTotal(listesAdj[i..])
        {
          assert listesAdj[i..] == [listesAdj[i]] + listesAdj[i + 1..];
          NbArcsTotalConcat([listesAdj[i]], listesAdj[i + 1..]);
          assert [listesAdj[i]][..0] == [];
          nbArcs := nbArcs - |listesAdj[i]|;
          i := i + 1;
        }
      }
      NbArcsRedimensionne(listesAdj, nouvelleTaille);
      listesAdj := Redimensionne(listesAdj, nouvelleTaille);
    }

    /** getNbSommets */
    function NbSommets(): (r: nat)
      reads this
      ensures r == |listesAdj|
    {
      |listesAdj|
    }

    /** getNbArcs: the number of arcs stored in all the lists. */
    function NbArcs(): (r: nat)
      reads this
      requires Valid()
      ensures r == NbArcsTotal(listesAdj)
    {
      nbArcs
    }

    /** ajouterArc: appends `(j, poids)` to list `i`; fails on a missing
        vertex or the forbidden weight, checked in that order. */
    method AjouterArc(i: nat, j: nat, poids: Poids) returns (r: Issue)
      requires Valid()
      modifies this
      ensures Valid()
      ensures i >= |old(listesAdj)| ==> r == Echoue(SommetIInexistant)
      ensures i < |old(listesAdj)| && j >= |old(listesAdj)| ==> r == Echoue(SommetJInexistant)
      ensures i < |old(listesAdj)| && j < |old(listesAdj)| && poids == INFINI ==> r == Echoue(PoidsInterdit)
      ensures r == Reussi <==> i < |old(listesAdj)| && j < |old(listesAdj)| && poids != INFINI
      ensures r.Echoue? ==> listesAdj == old(listesAdj) && nbArcs == old(nbArcs)
      ensures r == Reussi ==>
        && listesAdj == old(listesAdj)[i := old(listesAdj)[i] + [Arc(j, poids)]]
        && nbArcs == old(nbArcs) + 1
    {
      if i >= |listesAdj| {
        return Echoue(SommetIInexistant);
      }
      if j >= |listesAdj| {
        return Echoue(SommetJInexistant);
      }
      if poids == INFINI {
        return Echoue(PoidsInterdit);
      }
      NbArcsTotalRemplace(listesAdj, i, listesAdj[i] + [Arc(j, poids)]);
      listesAdj := listesAdj[i := listesAdj[i] + [Arc(j, poids)]];
      nbArcs := nbArcs + 1;
      r := Reussi;
    }

    /** enleverArc: erases the last arc to `j` of list `i`, scanning from the
        back; fails on a missing vertex, an empty list or a missing arc,
        checked in that order. */
    method EnleverArc(i: nat, j: nat) returns (r: Issue)
      requires Valid()
      modifies this
      ensures Valid()
      ensures |listesAdj| == |old(listesAdj)|
      ensures i >= |old(listesAdj)| ==> r == Echoue(SommetIInexistant)
      ensures i < |old(listesAdj)| && j >= |old(listesAdj)| ==> r == Echoue(SommetJInexistant)
      ensures i < |old(listesAdj)| && j < |old(listesAdj)| && old(listesAdj)[i] == [] ==> r == Echoue(ListeVide)
      ensures (i < |old(listesAdj)| && j < |old(listesAdj)| && old(listesAdj)[i] != []
               && !ArcVers(old(listesAdj)[i], j)) ==> r == Echoue(ArcInexistant)
      ensures r == Reussi <==> i < |old(listesAdj)| && j < |old(listesAdj)| && ArcVers(old(listesAdj)[i], j)
      ensures r.Echoue? ==> listesAdj == old(listesAdj) && nbArcs == old(nbArcs)
      ensures r == Reussi ==>
        && IndiceDernierArcVers(old(listesAdj)[i], j) >= 0
        && listesAdj == old(listesAdj)[i := SansArc(old(listesAdj)[i], IndiceDernierArcVers(old(listesAdj)[i], j))]
        && nbArcs == old(nbArcs) - 1
    {
      if i >= |listesAdj| {
        return Echoue(SommetIInexistant);
      }
      if j >= |listesAdj| {
        return Echoue(SommetJInexistant);
      }
      var liste := listesAdj[i];
      IndicesEtExistence(liste, j);
      if liste == [] {
        return Echoue(ListeVide);
      }
      var k := |liste|;
      var enleve := false;
      while k > 0
        invariant 0 <= k <= |liste|
        invariant forall m :: k <= m < |liste| ==> liste[m].destination != j
        invariant listesAdj == old(listesAdj) && nbArcs == old(nbArcs)
      {
        k := k - 1;
        if liste[k].destination == j {
          NbArcsTotalRemplace(listesAdj, i, SansArc(liste, k));
          listesAdj := listesAdj[i := SansArc(liste, k)];
          enleve := true;
          break;
        }
      }
      if !enleve {
        return Echoue(ArcInexistant);
      }
      nbArcs := nbArcs - 1;
      r := Reussi;
    }

    /** getPoids: the weight of the first arc to `j` of list `i`, scanning
        from the front; fails on a missing vertex `i` or a missing arc. */
    method GetPoids(i: nat, j: nat) returns (r: Resultat<Poids>)
      ensures i >= |listesAdj| ==> r == Echec(SommetIInexistant)
      ensures r.Ok? <==> i < |listesAdj| && ArcVers(listesAdj[i], j)
      ensures i < |listesAdj| && !ArcVers(listesAdj[i], j) ==> r == Echec(ArcInexistant)
      ensures r.Ok? ==>
        && IndicePremierArcVers(listesAdj[i], j) >= 0
        && r.valeur == listesAdj[i][IndicePremierArcVers(listesAdj[i], j)].poids
    {
      if i >= |listesAdj| {
        return Echec(SommetIInexistant);
      }
      IndicesEtExistence(listesAdj[i], j);
      var k := 0;
      while k < |listesAdj[i]|
        invariant 0 <= k <= |listesAdj[i]|
        invariant forall m :: 0 <= m < k ==> listesAdj[i][m].destination != j
      {
        if listesAdj[i][k].destination == j {
          return Ok(listesAdj[i][k].poids);
        }
        k := k + 1;
      }
      return Echec(ArcInexistant);
    }

    /** plusCourtChemin: Dijkstra's search from `origine`, stopped as soon as
        `destination` is popped, then the path rebuilt from the predecessor
        table through a stack. Returns 0 and `[destination]` when both ends
        coincide, the sentinel and `[destination]` when `destination` got no
        predecessor, and otherwise a path of minimum weight with its weight. */
    method PlusCourtChemin(origine: nat, destination: nat) returns (cout: nat, chemin: seq<nat>)
      requires origine < |listesAdj| && destination < |listesAdj|
      requires ArcsValides(listesAdj)
      ensures origine == destination ==> cout == 0 && chemin == [destination]
      ensures cout <= INFINI
      ensures cout == INFINI ==>
        && chemin == [destination]
        && forall p :: CheminDe(listesAdj, p, origine, destination) ==> PoidsChemin(listesAdj, p) >= INFINI
      ensures cout < INFINI ==>
        && CheminDe(listesAdj, chemin, origine, destination)
        && PoidsChemin(listesAdj, chemin) == cout
        && Minimal(listesAdj, origine, destination, cout)
    {
      chemin := [];
      if origine == destination {
        chemin := chemin + [destination];
        return 0, chemin;
      }

      var n := |listesAdj|;
      var dist: seq<nat> := seq(n, _ => INFINI);
      var prev: seq<int> := seq(n, _ => INDEFINI);
      dist := dist[origine := 0];
      var file: seq<Entree> := [Entree(0, origine)];
      ghost var S: set<nat> := {};
      ghost var rang: seq<nat> := seq(n, _ => 0);
      ghost var compteur: nat := 0;
      ghost var trouve := false;
      Initialisation(listesAdj, origine, dist, prev, rang);

      while |file| > 0
        invariant Invariant(listesAdj, origine, dist, prev, file, S, rang, compteur, INDEFINI)
        invariant destination !in S && !trouve
        decreases SommeDist(dist), |file|
      {
        var m := IndiceMin(file);
        var courant := file[m].sommet;
        ghost var dejaRegle := courant in S;
        if dejaRegle {
          ExtractionPerimee(listesAdj, origine, dist, prev, file, S, rang, compteur, m);
        } else {
          ExtractionNouvelle(listesAdj, origine, dist, prev, file, S, rang, compteur, m);
          S, rang, compteur := S + {courant}, rang[courant := compteur], compteur + 1;
        }
        file := Retire(file, m);

        if courant == destination {
          trouve := true;
          break;
        }

        dist, prev, file := RelacherArcs(origine, courant, dist, prev, file, S, rang, compteur, dejaRegle);
      }

      if !trouve {
        Inatteignable(listesAdj, origine, dist, prev, file, S, rang, compteur, destination);
      }
      if prev[destination] == INDEFINI {
        chemin := chemin + [destination];
        return INFINI, chemin;
      }

      chemin := ReconstruireChemin(origine, destination, dist, prev, S, rang, compteur);
      return dist[destination], chemin;
    }

    /** The `for` loop of plusCourtChemin over the arcs leaving `courant`:
        each arc that strictly shortens the distance of its target updates
        that distance and predecessor and pushes the target on the queue.
        Afterwards every arc leaving `courant` is relaxed. */
    method RelacherArcs(origine: nat, courant: nat, dist: seq<nat>, prev: seq<int>, file: seq<Entree>,
                        ghost S: set<nat>, ghost rang: seq<nat>, ghost compteur: nat, ghost dejaRegle: bool)
      returns (dist': seq<nat>, prev': seq<int>, file': seq<Entree>)
      requires courant < |listesAdj| && |dist| == |listesAdj| && ArcsValides(listesAdj)
      requires EnRelaxation(listesAdj, origine, dist, prev, file, S, rang, compteur, courant, 0, dejaRegle)
      ensures Invariant(listesAdj, origine, dist', prev', file', S, rang, compteur, INDEFINI)
      ensures SommeDist(dist') < SommeDist(dist) || (dist' == dist && file' == file)
    {
      dist', prev', file' := dist, prev, file;
      var a := 0;
      while a < |listesAdj[courant]|
        invariant a <= |listesAdj[courant]| && |dist'| == |listesAdj|
        invariant EnRelaxation(listesAdj, origine, dist', prev', file', S, rang, compteur, courant, a, dejaRegle)
        invariant SommeDist(dist') < SommeDist(dist) || (dist' == dist && file' == file)
      {
        var voisin := listesAdj[courant][a].destination;
        var nouvelleDist := dist'[courant] + listesAdj[courant][a].poids;
        if nouvelleDist < dist'[voisin] {
          PasAvecRelaxation(listesAdj, origine, dist', prev', file', S, rang, compteur, courant, a,
                            dejaRegle, voisin, nouvelleDist);
          dist' := dist'[voisin := nouvelleDist];
          prev' := prev'[voisin := courant];
          file' := file' + [Entree(nouvelleDist, voisin)];
        } else {
          PasSansRelaxation(listesAdj, origine, dist', prev', file', S, rang, compteur, courant, a, dejaRegle);
        }
        a := a + 1;
      }
      FinRelaxation(listesAdj, origine, dist', prev', file', S, rang, compteur, courant, dejaRegle);
    }

    /** The end of plusCourtChemin: follows the predecessors back from
        `destination`, pushing each vertex on a stack, pushes `origine`, and
        pops the stack into the path. */
    method ReconstruireChemin(origine: nat, destination: nat, dist: seq<nat>, prev: seq<int>,
                              ghost S: set<nat>, ghost rang: seq<nat>, ghost compteur: nat)
      returns (chemin: seq<nat>)
      requires Tables(listesAdj, origine, dist, prev, S, rang)
      requires Predecesseurs(listesAdj, origine, dist, prev, S, rang, compteur)
      requires destination in S
      ensures CheminDe(listesAdj, chemin, origine, destination)
      ensures PoidsChemin(listesAdj, chemin) <= dist[destination]
    {
      var pile: seq<nat> := [];
      var noeud: nat := destination;
      while prev[noeud] != INDEFINI
        invariant noeud < |listesAdj| && noeud in S
        invariant CheminDe(listesAdj, [noeud] + Renverse(pile), noeud, destination)
        invariant dist[noeud] + PoidsChemin(listesAdj, [noeud] + Renverse(pile)) <= dist[destination]
        decreases rang[noeud]
      {
        Remontee(listesAdj, origine, dist, prev, S, rang, compteur, noeud, [noeud] + Renverse(pile), destination);
        assert Renverse(pile + [noeud]) == [noeud] + Renverse(pile) by {
          assert (pile + [noeud])[..|pile|] == pile;
        }
        pile := pile + [noeud];
        noeud := prev[noeud];
      }
      ghost var complet := [noeud] + Renverse(pile);
      assert Renverse(pile + [origine]) == complet by {
        assert (pile + [origine])[..|pile|] == pile;
      }
      pile := pile + [origine];

      chemin := Depiler(pile);
    }

    /** Pops a stack (its top is the last element) into a vector until it
        is empty: the vector is the stack read from the top. */
    static method Depiler(pile: seq<nat>) returns (chemin: seq<nat>)
      ensures chemin == Renverse(pile)
    {
      var reste := pile;
      chemin := [];
      while |reste| > 0
        invariant chemin + Renverse(reste) == Renverse(pile)
      {
        chemin := chemin + [reste[|reste| - 1]];
        reste := reste[..|reste| - 1];
      }
    }
  }
}
