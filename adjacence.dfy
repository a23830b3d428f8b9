/** Adjacency lists of a weighted directed graph (TP_3/graphe.cpp) and the
    pure functions that say what each mutator of the graph does to them. */
module Adjacence {

  /** numeric_limits<unsigned int>::max(): the weight no arc may carry, and the
      "unreachable" cost of a shortest-path search. */
  const INFINI: nat := 0xFFFF_FFFF

  /** An `unsigned int` weight. */
  type Poids = w: nat | w <= INFINI

  /** An arc of an adjacency list: where it goes and what it costs. */
  datatype Arc = Arc(destination: nat, poids: Poids)

  /** Number of arcs stored in all the lists together. */
  function NbArcsTotal(listes: seq<seq<Arc>>): nat
  {
    if listes == [] then 0
    else NbArcsTotal(listes[..|listes| - 1]) + |listes[|listes| - 1]|
  }

  lemma {:induction false} NbArcsTotalConcat(a: seq<seq<Arc>>, b: seq<seq<Arc>>)
    ensures NbArcsTotal(a + b) == NbArcsTotal(a) + NbArcsTotal(b)
    decreases |b|
  {
    if b == [] {
      assert a + b == a;
    } else {
      assert (a + b)[..|a + b| - 1] == a + b[..|b| - 1];
      NbArcsTotalConcat(a, b[..|b| - 1]);
    }
  }

  /** Replacing one list changes the total by the difference of the sizes. */
  lemma {:induction false} NbArcsTotalRemplace(listes: seq<seq<Arc>>, i: nat, l: seq<Arc>)
    requires i < |listes|
    ensures NbArcsTotal(listes[i := l]) == NbArcsTotal(listes) - |listes[i]| + |l|
  {
    var avant, apres := listes[..i], listes[i + 1..];
    assert listes == avant + [listes[i]] + apres;
    assert listes[i := l] == avant + [l] + apres;
    NbArcsTotalConcat(avant + [listes[i]], apres);
    NbArcsTotalConcat(avant + [l], apres);
    NbArcsTotalConcat(avant, [listes[i]]);
    NbArcsTotalConcat(avant, [l]);
    assert [listes[i]][..0] == [];
    assert [l][..0] == [];
  }

  /** The total is zero exactly when every list is empty. */
  lemma {:induction false} NbArcsTotalNul(listes: seq<seq<Arc>>)
    ensures NbArcsTotal(listes) == 0 <==> forall i :: 0 <= i < |listes| ==> listes[i] == []
    decreases |listes|
  {
    if listes != [] {
      var debut := listes[..|listes| - 1];
      NbArcsTotalNul(debut);
      assert forall i :: 0 <= i < |debut| ==> debut[i] == listes[i];
    }
  }

  /** What vector::resize does to the lists: keep the first `n`, or append
      empty lists up to `n`. */
  function Redimensionne(listes: seq<seq<Arc>>, n: nat): (r: seq<seq<Arc>>)
    ensures |r| == n
    ensures forall i :: 0 <= i < n && i < |listes| ==> r[i] == listes[i]
    ensures forall i :: |listes| <= i < n ==> r[i] == []
  {
    if n <= |listes| then listes[..n] else listes + seq(n - |listes|, _ => [])
  }

  /** Shrinking loses exactly the arcs that leave the removed vertices;
      growing loses nothing. */
  lemma {:induction false} NbArcsRedimensionne(listes: seq<seq<Arc>>, n: nat)
    ensures n < |listes| ==>
      NbArcsTotal(Redimensionne(listes, n)) == NbArcsTotal(listes) - NbArcsTotal(listes[n..])
    ensures n >= |listes| ==> NbArcsTotal(Redimensionne(listes, n)) == NbArcsTotal(listes)
  {
    if n < |listes| {
      assert listes == listes[..n] + listes[n..];
      assert Redimensionne(listes, n) == listes[..n];
      NbArcsTotalConcat(listes[..n], listes[n..]);
    } else {
      var vides: seq<seq<Arc>> := seq(n - |listes|, _ => []);
      assert Redimensionne(listes, n) == listes + vides;
      NbArcsTotalConcat(listes, vides);
      assert forall i :: 0 <= i < |vides| ==> vides[i] == [];
      NbArcsTotalNul(vides);
    }
  }

  /** Shrinking to `m` and growing back to the old size always restores the
      vertex count; it restores the lists (and so the arc count) exactly when
      no arc left a removed vertex. */
  lemma {:induction false} AllerRetourRedimensionne(listes: seq<seq<Arc>>, m: nat)
    ensures |Redimensionne(Redimensionne(listes, m), |listes|)| == |listes|
    ensures Redimensionne(Redimensionne(listes, m), |listes|) == listes
        <==> m >= |listes| || NbArcsTotal(listes[m..]) == 0
    ensures NbArcsTotal(Redimensionne(Redimensionne(listes, m), |listes|)) == NbArcsTotal(listes)
        <==> m >= |listes| || NbArcsTotal(listes[m..]) == 0
  {
    var r := Redimensionne(Redimensionne(listes, m), |listes|);
    if m < |listes| {
      NbArcsTotalNul(listes[m..]);
      NbArcsRedimensionne(listes, m);
      NbArcsRedimensionne(Redimensionne(listes, m), |listes|);
      if NbArcsTotal(listes[m..]) == 0 {
        forall i | 0 <= i < |listes| ensures r[i] == listes[i] {
          if i >= m { assert listes[m..][i - m] == listes[i]; }
        }
      } else {
        var i :| 0 <= i < |listes[m..]| && listes[m..][i] != [];
        assert r[m + i] == [] != listes[m + i];
      }
    }
  }

  /** Index of the first arc to `j`, scanning from the front; -1 when none. */
  function IndicePremierArcVers(l: seq<Arc>, j: nat): (k: int)
    ensures -1 <= k < |l|
    ensures k >= 0 ==> l[k].destination == j
    ensures forall m :: 0 <= m < |l| && (k < 0 || m < k) ==> l[m].destination != j
  {
    if l == [] then -1
    else if l[0].destination == j then 0
    else
      var k := IndicePremierArcVers(l[1..], j);
      if k < 0 then -1 else k + 1
  }

  /** Index of the last arc to `j`, scanning from the back; -1 when none. */
  function IndiceDernierArcVers(l: seq<Arc>, j: nat): (k: int)
    ensures -1 <= k < |l|
    ensures k >= 0 ==> l[k].destination == j
    ensures forall m :: k < m < |l| ==> l[m].destination != j
  {
    if l == [] then -1
    else if l[|l| - 1].destination == j then |l| - 1
    else IndiceDernierArcVers(l[..|l| - 1], j)
  }

  /** `l` holds at least one arc to `j`. */
  predicate ArcVers(l: seq<Arc>, j: nat)
  {
    l != [] && (l[|l| - 1].destination == j || ArcVers(l[..|l| - 1], j))
  }

  /** An arc to `j` at a known index is an arc to `j`. */
  lemma {:induction false} ArcVersIndice(l: seq<Arc>, k: nat, j: nat)
    requires k < |l| && l[k].destination == j
    ensures ArcVers(l, j)
    decreases |l|
  {
    if k < |l| - 1 {
      ArcVersIndice(l[..|l| - 1], k, j);
    }
  }

  /** The list with the arc at index `k` erased, the others kept in order. */
  function SansArc(l: seq<Arc>, k: nat): seq<Arc>
    requires k < |l|
  {
    l[..k] + l[k + 1..]
  }

  /** Number of arcs of `l` that go to `j`. */
  function Compte(l: seq<Arc>, j: nat): nat
  {
    if l == [] then 0
    else Compte(l[..|l| - 1], j) + (if l[|l| - 1].destination == j then 1 else 0)
  }

  lemma {:induction false} CompteConcat(a: seq<Arc>, b: seq<Arc>, j: nat)
    ensures Compte(a + b, j) == Compte(a, j) + Compte(b, j)
    decreases |b|
  {
    if b == [] {
      assert a + b == a;
    } else {
      assert (a + b)[..|a + b| - 1] == a + b[..|b| - 1];
      CompteConcat(a, b[..|b| - 1], j);
    }
  }

  /** Both scans find an arc exactly when one exists, and so does the count. */
  lemma {:induction false} IndicesEtExistence(l: seq<Arc>, j: nat)
    ensures IndicePremierArcVers(l, j) >= 0 <==> ArcVers(l, j)
    ensures IndiceDernierArcVers(l, j) >= 0 <==> ArcVers(l, j)
    ensures ArcVers(l, j) <==> Compte(l, j) > 0
    decreases |l|
  {
    if l != [] {
      IndicesEtExistence(l[..|l| - 1], j);
      var p := IndicePremierArcVers(l, j);
      if p >= 0 {
        ArcVersIndice(l, p, j);
      }
    }
  }

  /** When a single arc goes to `j`, both scans find that arc. */
  lemma UnSeulArc(l: seq<Arc>, j: nat)
    requires Compte(l, j) == 1
    ensures IndicePremierArcVers(l, j) == IndiceDernierArcVers(l, j) >= 0
  {
    IndicesEtExistence(l, j);
    var p, k := IndicePremierArcVers(l, j), IndiceDernierArcVers(l, j);
    if p < k {
      CompteSansLui(l, p, j);
      assert SansArc(l, p)[k - 1] == l[k];
      PresenceCompte(SansArc(l, p), k - 1, j);
    }
  }

  /** An arc at a known index counts towards `Compte`. */
  lemma PresenceCompte(l: seq<Arc>, k: nat, j: nat)
    requires k < |l| && l[k].destination == j
    ensures Compte(l, j) > 0
  {
    assert l == l[..k] + [l[k]] + l[k + 1..];
    CompteConcat(l[..k] + [l[k]], l[k + 1..], j);
    CompteConcat(l[..k], [l[k]], j);
    assert [l[k]][..0] == [];
  }

  /** Erasing an arc to `j` lowers the number of arcs to `j` by one. */
  lemma CompteSansLui(l: seq<Arc>, k: nat, j: nat)
    requires k < |l| && l[k].destination == j
    ensures Compte(SansArc(l, k), j) == Compte(l, j) - 1
  {
    assert l == l[..k] + [l[k]] + l[k + 1..];
    CompteConcat(l[..k] + [l[k]], l[k + 1..], j);
    CompteConcat(l[..k], [l[k]], j);
    CompteConcat(l[..k], l[k + 1..], j);
    assert [l[k]][..0] == [];
  }

  /** Erasing the last arc to `j` from a list where it was appended last
      gives back the list as it was before the append. */
  lemma RetraitApresAjout(l: seq<Arc>, a: Arc)
    ensures IndiceDernierArcVers(l + [a], a.destination) == |l|
    ensures SansArc(l + [a], |l|) == l
  {
    assert (l + [a])[..|l|] == l;
  }

  /** Erasing the last arc to `j` from a list holding a single arc to `j`
      leaves no arc to `j`, so a second erase finds nothing. */
  lemma RetraitDeuxFois(l: seq<Arc>, j: nat)
    requires Compte(l, j) == 1
    ensures IndiceDernierArcVers(l, j) >= 0
    ensures IndiceDernierArcVers(SansArc(l, IndiceDernierArcVers(l, j)), j) == -1
  {
    IndicesEtExistence(l, j);
    var k := IndiceDernierArcVers(l, j);
    CompteSansLui(l, k, j);
    IndicesEtExistence(SansArc(l, k), j);
  }

  /** Index of a cheapest arc to `j`. */
  function IndicePoidsMin(l: seq<Arc>, j: nat): (k: nat)
    requires ArcVers(l, j)
    ensures k < |l| && l[k].destination == j
    ensures forall m :: 0 <= m < |l| && l[m].destination == j ==> l[k].poids <= l[m].poids
    decreases |l|
  {
    var debut := l[..|l| - 1];
    var dernier := l[|l| - 1];
    if !ArcVers(debut, j) then
      assert forall m :: 0 <= m < |debut| ==> debut[m].destination != j by {
        forall m | 0 <= m < |debut| ensures debut[m].destination != j {
          if debut[m].destination == j { ArcVersIndice(debut, m, j); }
        }
      }
      |l| - 1
    else
      var k := IndicePoidsMin(debut, j);
      if dernier.destination == j && dernier.poids < l[k].poids then |l| - 1 else k
  }
}
