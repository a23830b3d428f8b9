/** Paths through adjacency lists, and the facts that the Dijkstra search of
    TP_3/graphe.cpp (plusCourtChemin) keeps about its distance table, its
    predecessor table and its priority queue. */
module Chemins {
  import opened Adjacence

  /** numeric_limits<size_t>::max(), the "no predecessor" mark; no vertex
      index can reach it, so -1 stands for it here. */
  const INDEFINI: int := -1

  /** Every arc points at an existing vertex. */
  predicate ArcsValides(listes: seq<seq<Arc>>)
  {
    forall i, k :: 0 <= i < |listes| && 0 <= k < |listes[i]| ==> listes[i][k].destination < |listes|
  }

  /** Weight of a cheapest arc from `a` to `b` (parallel arcs are allowed). */
  function PoidsArc(listes: seq<seq<Arc>>, a: nat, b: nat): nat
    requires a < |listes| && ArcVers(listes[a], b)
  {
    listes[a][IndicePoidsMin(listes[a], b)].poids
  }

  /** A non-empty vertex sequence each of whose steps is an arc. */
  predicate EstChemin(listes: seq<seq<Arc>>, p: seq<nat>)
  {
    && |p| >= 1
    && (forall k :: 0 <= k < |p| ==> p[k] < |listes|)
    && (forall k :: 0 <= k < |p| - 1 ==> Etape(listes, p, k))
  }

  /** The step from `p[k]` to `p[k + 1]` is an arc. */
  predicate Etape(listes: seq<seq<Arc>>, p: seq<nat>, k: nat)
    requires k + 1 < |p|
  {
    p[k] < |listes| && ArcVers(listes[p[k]], p[k + 1])
  }

  /** A path that starts at `a` and ends at `b`. */
  predicate CheminDe(listes: seq<seq<Arc>>, p: seq<nat>, a: nat, b: nat)
  {
    EstChemin(listes, p) && p[0] == a && p[|p| - 1] == b
  }

  /** Sum of the step weights of a path. */
  function PoidsChemin(listes: seq<seq<Arc>>, p: seq<nat>): nat
    requires EstChemin(listes, p)
    decreases |p|
  {
    if |p| == 1 then 0
    else
      PrefixeChemin(listes, p, |p| - 1);
      assert Etape(listes, p, |p| - 2);
      PoidsChemin(listes, p[..|p| - 1]) + PoidsArc(listes, p[|p| - 2], p[|p| - 1])
  }

  /** A non-empty prefix of a path is a path. */
  lemma PrefixeChemin(listes: seq<seq<Arc>>, p: seq<nat>, n: nat)
    requires EstChemin(listes, p) && 1 <= n <= |p|
    ensures EstChemin(listes, p[..n])
  {
    forall k | 0 <= k < n - 1 ensures Etape(listes, p[..n], k) {
      assert Etape(listes, p, k);
    }
  }

  /** No path from `a` to `b` weighs less than `d`. */
  ghost predicate Minimal(listes: seq<seq<Arc>>, a: nat, b: nat, d: nat)
  {
    forall p :: CheminDe(listes, p, a, b) ==> d <= PoidsChemin(listes, p)
  }

  /** Prepending a step to a path adds the weight of that step. */
  lemma {:induction false} PoidsCheminDevant(listes: seq<seq<Arc>>, x: nat, p: seq<nat>)
    requires EstChemin(listes, p) && x < |listes| && ArcVers(listes[x], p[0])
    ensures EstChemin(listes, [x] + p) && CheminDe(listes, [x] + p, x, p[|p| - 1])
    ensures PoidsChemin(listes, [x] + p) == PoidsArc(listes, x, p[0]) + PoidsChemin(listes, p)
    decreases |p|
  {
    var q := [x] + p;
    forall k | 0 <= k < |q| - 1 ensures Etape(listes, q, k) {
      if k > 0 { assert Etape(listes, p, k - 1); }
    }
    if |p| > 1 {
      var debut := p[..|p| - 1];
      PrefixeChemin(listes, p, |p| - 1);
      assert Etape(listes, p, |p| - 2);
      PoidsCheminDevant(listes, x, debut);
      assert q[..|q| - 1] == [x] + debut;
    }
  }

  /** Reversal of a sequence, to read a stack from its top. */
  function Renverse(s: seq<nat>): (r: seq<nat>)
    ensures |r| == |s|
    ensures forall k :: 0 <= k < |s| ==> r[k] == s[|s| - 1 - k]
  {
    if s == [] then [] else [s[|s| - 1]] + Renverse(s[..|s| - 1])
  }

  /** Sum of a distance table, which every successful relaxation lowers. */
  function SommeDist(dist: seq<nat>): nat
  {
    if dist == [] then 0 else SommeDist(dist[..|dist| - 1]) + dist[|dist| - 1]
  }

  lemma {:induction false} SommeDiminue(dist: seq<nat>, v: nat, d: nat)
    requires v < |dist| && d < dist[v]
    ensures SommeDist(dist[v := d]) < SommeDist(dist)
    decreases |dist|
  {
    var n := |dist| - 1;
    if v < n {
      assert dist[v := d][..n] == dist[..n][v := d];
      SommeDiminue(dist[..n], v, d);
    } else {
      assert dist[v := d][..n] == dist[..n];
    }
  }

  /** An entry of the priority queue: pair (tentative distance, vertex). */
  datatype Entree = Entree(cle: nat, sommet: nat)

  /** Index of an entry of minimum key: what `top()` of a min-priority queue
      returns (which of several equal keys is left open by the model). */
  function IndiceMin(file: seq<Entree>): (m: nat)
    requires |file| > 0
    ensures m < |file|
    ensures forall f :: f in file ==> file[m].cle <= f.cle
  {
    if |file| == 1 then 0
    else
      var m := IndiceMin(file[1..]) + 1;
      assert forall f :: f in file ==> f == file[0] || f in file[1..];
      if file[0].cle <= file[m].cle then 0 else m
  }

  /** The queue after `pop()` of the entry at index `m`. */
  function Retire(file: seq<Entree>, m: nat): (r: seq<Entree>)
    requires m < |file|
    ensures |r| == |file| - 1
    ensures forall f :: f in r ==> f in file
    ensures forall f :: f in file && f != file[m] ==> f in r
    ensures multiset(r) == multiset(file) - multiset{file[m]}
  {
    var r := file[..m] + file[m + 1..];
    assert file == file[..m] + [file[m]] + file[m + 1..];
    assert forall f :: f in file && f != file[m] ==> f in r by {
      forall f | f in file && f != file[m] ensures f in r {
        var i :| 0 <= i < |file| && file[i] == f;
        if i < m { assert r[i] == f; } else { assert r[i - 1] == f; }
      }
    }
    r
  }

  // ---------------------------------------------------------------------
  // Invariant of the search loop. `S` (ghost) holds the vertices popped so
  // far, `rang` the order in which they were first popped, and `enCours`
  // the one vertex of `S` whose arcs are being relaxed (INDEFINI if none).

  ghost predicate Tables(listes: seq<seq<Arc>>, o: nat, dist: seq<nat>, prev: seq<int>,
                         S: set<nat>, rang: seq<nat>)
  {
    && ArcsValides(listes) && o < |listes|
    && |dist| == |listes| && |prev| == |listes| && |rang| == |listes|
    && dist[o] == 0 && prev[o] == INDEFINI
    && (forall v :: 0 <= v < |listes| ==> dist[v] <= INFINI)
    && (forall s :: s in S ==> s < |listes|)
  }

  /** Every queue entry names a reached vertex with a key no lower than its
      distance; every reached, unpopped vertex has its current distance in
      the queue; popped vertices are no farther than any key. */
  ghost predicate FileCoherente(listes: seq<seq<Arc>>, o: nat, dist: seq<nat>, prev: seq<int>,
                                file: seq<Entree>, S: set<nat>, rang: seq<nat>)
    requires Tables(listes, o, dist, prev, S, rang)
  {
    && (forall e :: e in file ==>
          && e.sommet < |listes| && dist[e.sommet] <= e.cle < INFINI
          && (e.sommet == o || prev[e.sommet] != INDEFINI))
    && (forall v :: 0 <= v < |listes| && v !in S && dist[v] < INFINI ==> Entree(dist[v], v) in file)
    && (forall s, e :: s in S && e in file ==> dist[s] <= e.cle)
  }

  /** A predecessor is a popped vertex with an arc to its successor, whose
      distance plus that arc is within the successor's distance; among
      popped vertices, predecessors were popped earlier. */
  ghost predicate Predecesseurs(listes: seq<seq<Arc>>, o: nat, dist: seq<nat>, prev: seq<int>,
                                S: set<nat>, rang: seq<nat>, compteur: nat)
    requires Tables(listes, o, dist, prev, S, rang)
  {
    && (forall v :: 0 <= v < |listes| && prev[v] != INDEFINI ==>
          && 0 <= prev[v] < |listes| && prev[v] in S
          && ArcVers(listes[prev[v]], v)
          && dist[v] < INFINI
          && dist[prev[v]] + PoidsArc(listes, prev[v], v) <= dist[v])
    && (forall s :: s in S ==> (s == o || prev[s] != INDEFINI) && rang[s] < compteur)
    && (forall s :: s in S && prev[s] != INDEFINI ==> rang[prev[s]] < rang[s])
  }

  /** All arcs leaving `u` are relaxed. */
  ghost predicate Relaxe(listes: seq<seq<Arc>>, dist: seq<nat>, u: nat)
    requires u < |listes| && |dist| == |listes| && ArcsValides(listes)
  {
    forall k :: 0 <= k < |listes[u]| ==> dist[listes[u][k].destination] <= dist[u] + listes[u][k].poids
  }

  ghost predicate Invariant(listes: seq<seq<Arc>>, o: nat, dist: seq<nat>, prev: seq<int>,
                            file: seq<Entree>, S: set<nat>, rang: seq<nat>, compteur: nat,
                            enCours: int)
  {
    && Tables(listes, o, dist, prev, S, rang)
    && FileCoherente(listes, o, dist, prev, file, S, rang)
    && Predecesseurs(listes, o, dist, prev, S, rang, compteur)
    && (forall s :: s in S ==> Minimal(listes, o, s, dist[s]))
    && (forall s :: s in S && s != enCours ==> Relaxe(listes, dist, s))
  }

  /** The state right after `dist[origin] = 0` and the first push. */
  lemma Initialisation(listes: seq<seq<Arc>>, o: nat, dist: seq<nat>, prev: seq<int>, rang: seq<nat>)
    requires ArcsValides(listes) && o < |listes|
    requires dist == seq(|listes|, _ => INFINI)[o := 0]
    requires prev == seq(|listes|, _ => INDEFINI)
    requires rang == seq(|listes|, _ => 0)
    ensures Invariant(listes, o, dist, prev, [Entree(0, o)], {}, rang, 0, INDEFINI)
  {
  }

  /** From a path out of the origin that ends at an unpopped vertex, the
      queue holds a key no larger than the path's weight. */
  lemma {:induction false} Frontiere(listes: seq<seq<Arc>>, o: nat, dist: seq<nat>, prev: seq<int>,
                                     file: seq<Entree>, S: set<nat>, rang: seq<nat>,
                                     compteur: nat, p: seq<nat>)
    requires Invariant(listes, o, dist, prev, file, S, rang, compteur, INDEFINI)
    requires EstChemin(listes, p) && p[0] == o && p[|p| - 1] !in S
    requires PoidsChemin(listes, p) < INFINI
    ensures exists e :: e in file && e.cle <= PoidsChemin(listes, p)
    decreases |p|
  {
    var z := p[|p| - 1];
    if |p| == 1 {
      assert Entree(dist[o], o) in file;
    } else {
      var q := p[..|p| - 1];
      PrefixeChemin(listes, p, |p| - 1);
      var x := q[|q| - 1];
      assert Etape(listes, p, |p| - 2);
      assert PoidsChemin(listes, p) == PoidsChemin(listes, q) + PoidsArc(listes, x, z);
      if x in S {
        assert CheminDe(listes, q, o, x);
        assert dist[x] <= PoidsChemin(listes, q);
        var k := IndicePoidsMin(listes[x], z);
        assert Relaxe(listes, dist, x);
        assert dist[z] <= dist[x] + listes[x][k].poids;
        assert Entree(dist[z], z) in file;
      } else {
        Frontiere(listes, o, dist, prev, file, S, rang, compteur, q);
      }
    }
  }

  /** Popping an entry of a vertex already popped changes no fact. */
  lemma ExtractionPerimee(listes: seq<seq<Arc>>, o: nat, dist: seq<nat>, prev: seq<int>,
                          file: seq<Entree>, S: set<nat>, rang: seq<nat>, compteur: nat,
                          m: nat)
    requires Invariant(listes, o, dist, prev, file, S, rang, compteur, INDEFINI)
    requires m < |file| && file[m].sommet in S
    ensures Invariant(listes, o, dist, prev, Retire(file, m), S, rang, compteur, INDEFINI)
    ensures Relaxe(listes, dist, file[m].sommet)
  {
    var reste := Retire(file, m);
    forall v | 0 <= v < |listes| && v !in S && dist[v] < INFINI ensures Entree(dist[v], v) in reste {
      assert Entree(dist[v], v) != file[m];
    }
  }

  /** The key of a minimum entry of a vertex not yet popped is its distance,
      and that distance is minimal. */
  lemma DistanceReglee(listes: seq<seq<Arc>>, o: nat, dist: seq<nat>, prev: seq<int>,
                       file: seq<Entree>, S: set<nat>, rang: seq<nat>, compteur: nat, m: nat)
    requires Invariant(listes, o, dist, prev, file, S, rang, compteur, INDEFINI)
    requires m < |file| && file[m].sommet !in S
    requires forall f :: f in file ==> file[m].cle <= f.cle
    ensures dist[file[m].sommet] == file[m].cle
    ensures Minimal(listes, o, file[m].sommet, dist[file[m].sommet])
  {
    var c := file[m].sommet;
    assert file[m] in file;
    assert Entree(dist[c], c) in file;
    forall p | CheminDe(listes, p, o, c) ensures dist[c] <= PoidsChemin(listes, p) {
      if PoidsChemin(listes, p) < INFINI {
        Frontiere(listes, o, dist, prev, file, S, rang, compteur, p);
      }
    }
  }

  lemma ExtractionFile(listes: seq<seq<Arc>>, o: nat, dist: seq<nat>, prev: seq<int>,
                       file: seq<Entree>, S: set<nat>, rang: seq<nat>, m: nat)
    requires Tables(listes, o, dist, prev, S, rang)
    requires FileCoherente(listes, o, dist, prev, file, S, rang)
    requires m < |file| && file[m].sommet !in S && dist[file[m].sommet] == file[m].cle
    requires forall f :: f in file ==> file[m].cle <= f.cle
    ensures Tables(listes, o, dist, prev, S + {file[m].sommet}, rang[file[m].sommet := 0])
    ensures FileCoherente(listes, o, dist, prev, Retire(file, m), S + {file[m].sommet},
                          rang[file[m].sommet := 0])
    ensures forall s :: s in S + {file[m].sommet} ==> dist[s] <= dist[file[m].sommet]
  {
    var c := file[m].sommet;
    var reste := Retire(file, m);
    assert file[m] in file;
    forall v | 0 <= v < |listes| && v !in S + {c} && dist[v] < INFINI ensures Entree(dist[v], v) in reste {
      assert Entree(dist[v], v) != file[m];
    }
  }

  lemma ExtractionPredecesseurs(listes: seq<seq<Arc>>, o: nat, dist: seq<nat>, prev: seq<int>,
                                S: set<nat>, rang: seq<nat>, compteur: nat, c: nat)
    requires Tables(listes, o, dist, prev, S, rang)
    requires Predecesseurs(listes, o, dist, prev, S, rang, compteur)
    requires c < |listes| && c !in S && (c == o || prev[c] != INDEFINI)
    ensures Tables(listes, o, dist, prev, S + {c}, rang[c := compteur])
    ensures Predecesseurs(listes, o, dist, prev, S + {c}, rang[c := compteur], compteur + 1)
  {
  }

  /** Popping a minimum entry of a vertex not yet popped settles it: its
      distance is minimal and no farther than any popped vertex's. */
  lemma ExtractionNouvelle(listes: seq<seq<Arc>>, o: nat, dist: seq<nat>, prev: seq<int>,
                           file: seq<Entree>, S: set<nat>, rang: seq<nat>, compteur: nat,
                           m: nat)
    requires Invariant(listes, o, dist, prev, file, S, rang, compteur, INDEFINI)
    requires m < |file| && file[m].sommet !in S
    requires forall f :: f in file ==> file[m].cle <= f.cle
    ensures Invariant(listes, o, dist, prev, Retire(file, m), S + {file[m].sommet},
                      rang[file[m].sommet := compteur], compteur + 1, file[m].sommet)
    ensures forall s :: s in S + {file[m].sommet} ==> dist[s] <= dist[file[m].sommet]
  {
    var c := file[m].sommet;
    var S', rang' := S + {c}, rang[c := compteur];
    DistanceReglee(listes, o, dist, prev, file, S, rang, compteur, m);
    ExtractionFile(listes, o, dist, prev, file, S, rang, m);
    assert file[m] in file;
    ExtractionPredecesseurs(listes, o, dist, prev, S, rang, compteur, c);
    assert FileCoherente(listes, o, dist, prev, Retire(file, m), S', rang');
    assert forall s :: s in S' ==> Minimal(listes, o, s, dist[s]);
    assert forall s :: s in S' && s != c ==> Relaxe(listes, dist, s);
  }

  lemma RelaxationFile(listes: seq<seq<Arc>>, o: nat, dist: seq<nat>, prev: seq<int>,
                       file: seq<Entree>, S: set<nat>, rang: seq<nat>, c: nat, v: nat, d: nat)
    requires Tables(listes, o, dist, prev, S, rang)
    requires FileCoherente(listes, o, dist, prev, file, S, rang)
    requires c < |listes| && v < |listes| && v !in S && v != o && d < dist[v]
    requires forall s :: s in S ==> dist[s] <= d
    ensures Tables(listes, o, dist[v := d], prev[v := c], S, rang)
    ensures FileCoherente(listes, o, dist[v := d], prev[v := c], file + [Entree(d, v)], S, rang)
  {
    var dist', prev', file' := dist[v := d], prev[v := c], file + [Entree(d, v)];
    forall f | f in file' ensures f.sommet < |listes| && dist'[f.sommet] <= f.cle < INFINI
      && (f.sommet == o || prev'[f.sommet] != INDEFINI) {
      if f != Entree(d, v) { assert f in file; }
    }
    forall u | 0 <= u < |listes| && u !in S && dist'[u] < INFINI ensures Entree(dist'[u], u) in file' {
      if u != v { assert Entree(dist[u], u) in file; }
    }
    forall s, f | s in S && f in file' ensures dist'[s] <= f.cle {
      if f != Entree(d, v) { assert f in file; }
    }
  }

  lemma RelaxationPredecesseurs(listes: seq<seq<Arc>>, o: nat, dist: seq<nat>, prev: seq<int>,
                                S: set<nat>, rang: seq<nat>, compteur: nat, c: nat, k: nat)
    requires Tables(listes, o, dist, prev, S, rang)
    requires Predecesseurs(listes, o, dist, prev, S, rang, compteur)
    requires c in S && k < |listes[c]|
    requires listes[c][k].destination !in S && listes[c][k].destination != o
    requires dist[c] + listes[c][k].poids < dist[listes[c][k].destination]
    ensures var v := listes[c][k].destination;
            var d := dist[c] + listes[c][k].poids;
            && Tables(listes, o, dist[v := d], prev[v := c], S, rang)
            && Predecesseurs(listes, o, dist[v := d], prev[v := c], S, rang, compteur)
  {
    var v := listes[c][k].destination;
    var d := dist[c] + listes[c][k].poids;
    var dist', prev' := dist[v := d], prev[v := c];
    ArcVersIndice(listes[c], k, v);
    assert PoidsArc(listes, c, v) <= listes[c][k].poids;
    forall u | 0 <= u < |listes| && prev'[u] != INDEFINI
      ensures dist'[prev'[u]] + PoidsArc(listes, prev'[u], u) <= dist'[u] {
      if u != v {
        assert dist'[prev[u]] <= dist[prev[u]];
      }
    }
  }

  /** Relaxing one arc `c -> v` out of the vertex being processed, when it
      improves the distance of `v` to `d`, keeps the invariant. */
  lemma Relaxation(listes: seq<seq<Arc>>, o: nat, dist: seq<nat>, prev: seq<int>,
                   file: seq<Entree>, S: set<nat>, rang: seq<nat>, compteur: nat,
                   c: nat, k: nat, v: nat, d: nat)
    requires Invariant(listes, o, dist, prev, file, S, rang, compteur, c)
    requires c in S && k < |listes[c]|
    requires v == listes[c][k].destination && d == dist[c] + listes[c][k].poids
    requires forall s :: s in S ==> dist[s] <= dist[c]
    requires d < dist[v]
    ensures v !in S && v != c
    ensures Invariant(listes, o, dist[v := d], prev[v := c], file + [Entree(d, v)], S, rang, compteur, c)
    ensures forall s :: s in S ==> dist[v := d][s] <= dist[v := d][c]
  {
    assert v !in S;
    assert v != o;
    RelaxationFile(listes, o, dist, prev, file, S, rang, c, v, d);
    RelaxationPredecesseurs(listes, o, dist, prev, S, rang, compteur, c, k);
    RelaxationReglees(listes, o, dist, S, c, v, d);
  }

  /** Lowering the distance of an unpopped vertex keeps the facts about the
      popped ones. */
  lemma RelaxationReglees(listes: seq<seq<Arc>>, o: nat, dist: seq<nat>, S: set<nat>,
                          c: nat, v: nat, d: nat)
    requires ArcsValides(listes) && |dist| == |listes| && v < |listes| && v !in S && d < dist[v]
    requires forall s :: s in S ==> s < |listes|
    requires forall s :: s in S ==> Minimal(listes, o, s, dist[s])
    requires forall s :: s in S && s != c ==> Relaxe(listes, dist, s)
    ensures forall s :: s in S ==> Minimal(listes, o, s, dist[v := d][s])
    ensures forall s :: s in S && s != c ==> Relaxe(listes, dist[v := d], s)
  {
    var dist' := dist[v := d];
    forall s | s in S ensures Minimal(listes, o, s, dist'[s]) {
      assert dist'[s] == dist[s];
    }
    forall s | s in S && s != c ensures Relaxe(listes, dist', s) {
      assert Relaxe(listes, dist, s);
    }
  }

  /** Once the queue is empty, a vertex never popped has no path from the
      origin lighter than the sentinel. */
  lemma Inatteignable(listes: seq<seq<Arc>>, o: nat, dist: seq<nat>, prev: seq<int>,
                      file: seq<Entree>, S: set<nat>, rang: seq<nat>, compteur: nat, d: nat)
    requires Invariant(listes, o, dist, prev, file, S, rang, compteur, INDEFINI)
    requires |file| == 0 && d < |listes| && d !in S
    ensures prev[d] == INDEFINI
    ensures forall p :: CheminDe(listes, p, o, d) ==> PoidsChemin(listes, p) >= INFINI
  {
    forall p | CheminDe(listes, p, o, d) ensures PoidsChemin(listes, p) >= INFINI {
      if PoidsChemin(listes, p) < INFINI {
        Frontiere(listes, o, dist, prev, file, S, rang, compteur, p);
      }
    }
  }

  // ---------------------------------------------------------------------
  // The loop over the arcs leaving the popped vertex `c`.

  /** The search invariant with `c` in progress, the first `a` arcs of `c`
      relaxed, and either `c` was settled before (so all its arcs are
      relaxed) or no popped vertex is farther than `c`. */
  ghost predicate EnRelaxation(listes: seq<seq<Arc>>, o: nat, dist: seq<nat>, prev: seq<int>,
                               file: seq<Entree>, S: set<nat>, rang: seq<nat>, compteur: nat,
                               c: nat, a: nat, dejaRegle: bool)
  {
    && c in S
    && Invariant(listes, o, dist, prev, file, S, rang, compteur, c)
    && a <= |listes[c]|
    && (forall q :: 0 <= q < a ==> dist[listes[c][q].destination] <= dist[c] + listes[c][q].poids)
    && (dejaRegle ==> Relaxe(listes, dist, c))
    && (!dejaRegle ==> forall s :: s in S ==> dist[s] <= dist[c])
  }

  /** The arc `a` of `c`, to `v` through which `v` gets no closer, needs
      no update. */
  lemma PasSansRelaxation(listes: seq<seq<Arc>>, o: nat, dist: seq<nat>, prev: seq<int>,
                          file: seq<Entree>, S: set<nat>, rang: seq<nat>, compteur: nat,
                          c: nat, a: nat, dejaRegle: bool)
    requires EnRelaxation(listes, o, dist, prev, file, S, rang, compteur, c, a, dejaRegle)
    requires a < |listes[c]|
    requires dist[c] + listes[c][a].poids >= dist[listes[c][a].destination]
    ensures EnRelaxation(listes, o, dist, prev, file, S, rang, compteur, c, a + 1, dejaRegle)
  {
  }

  /** The arc `a` of `c`, to `v` through which `v` gets closer (at
      distance `d`), updates the distance and the predecessor of `v` and
      pushes `v` with key `d`; the state is again a relaxation state, one
      arc further, with a smaller distance sum. */
  lemma PasAvecRelaxation(listes: seq<seq<Arc>>, o: nat, dist: seq<nat>, prev: seq<int>,
                          file: seq<Entree>, S: set<nat>, rang: seq<nat>, compteur: nat,
                          c: nat, a: nat, dejaRegle: bool, v: nat, d: nat)
    requires EnRelaxation(listes, o, dist, prev, file, S, rang, compteur, c, a, dejaRegle)
    requires a < |listes[c]|
    requires v == listes[c][a].destination && d == dist[c] + listes[c][a].poids && d < dist[v]
    ensures EnRelaxation(listes, o, dist[v := d], prev[v := c], file + [Entree(d, v)],
                         S, rang, compteur, c, a + 1, dejaRegle)
    ensures SommeDist(dist[v := d]) < SommeDist(dist)
  {
    Relaxation(listes, o, dist, prev, file, S, rang, compteur, c, a, v, d);
    var dist' := dist[v := d];
    forall q | 0 <= q <= a ensures dist'[listes[c][q].destination] <= dist'[c] + listes[c][q].poids {
      var w := listes[c][q].destination;
      assert dist'[c] == dist[c];
      if w != v { assert dist'[w] == dist[w]; }
    }
    SommeDiminue(dist, v, d);
  }

  /** Once every arc of `c` is looked at, `c` is relaxed. */
  lemma FinRelaxation(listes: seq<seq<Arc>>, o: nat, dist: seq<nat>, prev: seq<int>,
                      file: seq<Entree>, S: set<nat>, rang: seq<nat>, compteur: nat,
                      c: nat, dejaRegle: bool)
    requires c < |listes|
    requires EnRelaxation(listes, o, dist, prev, file, S, rang, compteur, c, |listes[c]|, dejaRegle)
    ensures Invariant(listes, o, dist, prev, file, S, rang, compteur, INDEFINI)
  {
    assert Relaxe(listes, dist, c);
  }

  // ---------------------------------------------------------------------
  // Rebuilding the path from the predecessor table.

  /** One step back along the predecessors: a path from a popped vertex
      `u` that has a predecessor, within the distance budget, extends to a
      path from that predecessor, popped earlier, within the same budget. */
  lemma Remontee(listes: seq<seq<Arc>>, o: nat, dist: seq<nat>, prev: seq<int>,
                 S: set<nat>, rang: seq<nat>, compteur: nat, u: nat, p: seq<nat>, b: nat)
    requires Tables(listes, o, dist, prev, S, rang)
    requires Predecesseurs(listes, o, dist, prev, S, rang, compteur)
    requires u in S && prev[u] != INDEFINI
    requires CheminDe(listes, p, u, b) && b < |listes|
    requires dist[u] + PoidsChemin(listes, p) <= dist[b]
    ensures 0 <= prev[u] < |listes| && prev[u] in S && rang[prev[u]] < rang[u]
    ensures CheminDe(listes, [prev[u]] + p, prev[u], b)
    ensures dist[prev[u]] + PoidsChemin(listes, [prev[u]] + p) <= dist[b]
  {
    var x := prev[u];
    assert 0 <= x < |listes| && x in S && ArcVers(listes[x], u);
    assert dist[x] + PoidsArc(listes, x, u) <= dist[u];
    assert p[0] == u && p[|p| - 1] == b;
    PoidsCheminDevant(listes, x, p);
  }
}
