# Weighted graph and GTFS loaders, modelled in Dafny

This project models two parts of a course repository on public-transit data.

**The graph (TP_3/graphe.cpp).** `Graphe` is a directed graph with
non-negative weights. It holds a vector of adjacency lists and an arc
counter.
- The class `Graphes.Graphe` keeps the lists as a `seq<seq<Arc>>` and the
  counter as a `nat`. Its methods update both in place, exactly as the
  C++ methods do.
- `Valid()` is the class invariant. It says the counter equals the number
  of stored arcs and that no arc carries the forbidden weight
  `numeric_limits<unsigned int>::max()` (`INFINI`).
- Every `logic_error` becomes an `Echoue`/`Echec` result. The conditions
  are checked in the source's order.
- `plusCourtChemin` is Dijkstra's search with lazy deletion. It stops as
  soon as the destination is popped, then rebuilds the path through a
  stack. It is proved to return a path of minimum weight together with
  that weight. When no predecessor was found, it returns the sentinel and
  a one-vertex path, and in that case no path weighs less than the
  sentinel.
- The search invariant lives in module `Chemins`, with one lemma per step
  of the loop. The pure descriptions of what each mutator does to the
  lists live in module `Adjacence`.

**The GTFS loaders (TP_1/aRemettrePourTP1.cpp).** `DonneesGTFS` loads a
GTFS schedule for one date and one time interval `[now1, now2)`.
- The class `Chargement.DonneesGtfs` holds its containers as maps, sets
  and sequences.
- Each loader is a method that walks the rows of one file. It skips the
  header line with a line counter and updates its containers in place.
- Each loader is proved to leave exactly the contents given by a
  reference function of module `Gtfs`. Lemmas there state what those
  contents are in terms of the rows, for example:
  - which keys are present and which row's value each key keeps;
  - which transfers, services, trips and stops are retained;
  - that no trip or station is left without a stop.
- A file that cannot be opened reads as no rows. Each row arrives already
  split into the fields the loader reads, with times as seconds after
  midnight and dates already parsed.

Two behaviours of the code are kept as written:
- Trips are stored under their route id, because `m_voyages.insert({p_ligne, voyage})` keys them that way. The stop loader then looks a stop's trip id up in that map.
- `m_stations[id]` inserts a default station for an unknown id before the stop is appended.

## Model

| member | source | states |
|---|---|---|
| Graphes.Graphe.constructor | TP_3/graphe.cpp:12-18 | `nbSommets` empty adjacency lists, no arc, invariant established |
| Graphes.Graphe.Resize | TP_3/graphe.cpp:20-37 | lists become `Redimensionne(old, n)`: the first `n` kept, or empty ones appended. When shrinking, the counter drops by exactly the arcs of the removed lists; otherwise it is unchanged. The invariant is kept |
| Graphes.Graphe.NbSommets | TP_3/graphe.cpp:39-42 | the number of adjacency lists |
| Graphes.Graphe.NbArcs | TP_3/graphe.cpp:44-47 | under the invariant, the counter is the number of arcs stored in all lists |
| Graphes.Graphe.AjouterArc | TP_3/graphe.cpp:49-66 | missing `i`, missing `j`, forbidden weight each give their own error, in that order, with no change. Success happens exactly when none applies: it appends `(j, poids)` to list `i` alone and adds one to the counter |
| Graphes.Graphe.EnleverArc | TP_3/graphe.cpp:68-96 | missing `i`, missing `j`, empty list, no arc to `j` each give their own error, in that order, with no change. Success happens iff list `i` has an arc to `j`: it erases the LAST such arc, other lists untouched, counter minus one |
| Graphes.Graphe.GetPoids | TP_3/graphe.cpp:99-107 | missing `i` or no arc to `j` is an error. Succeeds iff an arc to `j` exists, returning the weight of the FIRST such arc |
| Graphes.Graphe.PlusCourtChemin | TP_3/graphe.cpp:110-177 | equal ends give 0 and `[destination]`. A cost below the sentinel comes with a path from origin to destination of that weight, and no path is lighter. The sentinel cost comes with `[destination]`, and then every path weighs at least the sentinel |
| Graphes.Graphe.RelacherArcs | TP_3/graphe.cpp:148-157 | after scanning every arc of the popped vertex, the search invariant holds with that vertex relaxed. The distance sum strictly fell, or nothing changed |
| Graphes.Graphe.ReconstruireChemin | TP_3/graphe.cpp:165-174 | following predecessors back from the destination and unstacking yields a path from origin to destination no heavier than the destination's distance |
| Graphes.Graphe.Depiler | TP_3/graphe.cpp:171-174 | popping the stack into the vector yields the stack reversed (read from its top) |
| Adjacence.NbArcsTotalRemplace | TP_3/graphe.cpp:64-65 | replacing one list changes the arc total by the size difference |
| Adjacence.NbArcsTotalNul | TP_3/graphe.cpp:12-18 | the arc total is 0 iff every list is empty |
| Adjacence.Redimensionne | TP_3/graphe.cpp:36 | result has length `n`, keeps the old lists below `n`, and has empty lists beyond the old length |
| Adjacence.NbArcsRedimensionne | TP_3/graphe.cpp:28-36 | shrinking loses exactly the arcs of the removed lists; growing loses none |
| Adjacence.AllerRetourRedimensionne | TP_3/graphe.cpp:20-37 | shrinking then growing back restores the vertex count always. It restores the lists and the arc count iff no removed list held an arc |
| Adjacence.IndicePremierArcVers | TP_3/graphe.cpp:102-106 | index of the first arc to `j`, or -1 when there is none |
| Adjacence.IndiceDernierArcVers | TP_3/graphe.cpp:84-92 | index of the last arc to `j`, scanning from the end, or -1 when there is none |
| Adjacence.IndicesEtExistence | TP_3/graphe.cpp:84-106 | both scans find an index iff an arc to `j` exists, iff the count of arcs to `j` is positive |
| Adjacence.UnSeulArc | TP_3/graphe.cpp:75-107 | with a single arc to `j`, the removal's backward scan and the weight query's forward scan pick the same arc |
| Adjacence.CompteSansLui | TP_3/graphe.cpp:88 | erasing an arc to `j` lowers the count of arcs to `j` by one |
| Adjacence.RetraitApresAjout | TP_3/graphe.cpp:56-96 | removing an arc just appended finds that very arc and restores the list |
| Adjacence.RetraitDeuxFois | TP_3/graphe.cpp:75-96 | with one arc to `j`, a first removal succeeds and a second finds no arc |
| Adjacence.IndicePoidsMin | TP_3/graphe.cpp:148-153 | modelling device, not code of the source: index of a cheapest arc to `j`, used to give a step between two vertices joined by parallel arcs its weight. The code relaxes each parallel arc in turn and never selects one |
| Chemins.PoidsCheminDevant | TP_3/graphe.cpp:166-169 | prepending a predecessor step gives a path whose weight grows by that step |
| Chemins.Renverse | TP_3/graphe.cpp:165-174 | same length; element `k` is element `n-1-k` of the input |
| Chemins.SommeDiminue | TP_3/graphe.cpp:152-153 | lowering one distance lowers the distance sum, so the search loop terminates |
| Chemins.IndiceMin | TP_3/graphe.cpp:132-141 | `top()` of the min-queue: an entry whose key is no larger than any other |
| Chemins.Retire | TP_3/graphe.cpp:142 | `pop()`: the queue's multiset of entries loses exactly one copy of the popped entry; every other entry, duplicates included, is kept and nothing is added |
| Chemins.Initialisation | TP_3/graphe.cpp:127-138 | the initial tables and the queue `[(0, origin)]` satisfy the search invariant |
| Chemins.Frontiere | TP_3/graphe.cpp:140-158 | any path from the origin to an unpopped vertex lighter than the sentinel is matched by a queue key no heavier than it |
| Chemins.ExtractionPerimee | TP_3/graphe.cpp:141-142 | popping a stale entry of an already settled vertex keeps the invariant; that vertex is already relaxed |
| Chemins.DistanceReglee | TP_3/graphe.cpp:140-146 | the minimum entry of an unpopped vertex carries its distance, and that distance is minimal over all paths |
| Chemins.ExtractionFile | TP_3/graphe.cpp:141-142 | after popping a new vertex the queue facts hold with it settled, and it is the farthest settled vertex |
| Chemins.ExtractionPredecesseurs | TP_3/graphe.cpp:141-142 | settling a reached vertex keeps the predecessor facts, with its settling order recorded |
| Chemins.ExtractionNouvelle | TP_3/graphe.cpp:140-146 | popping a minimum entry of a new vertex settles it at its minimal distance and keeps the invariant |
| Chemins.RelaxationFile | TP_3/graphe.cpp:152-155 | lowering an unpopped vertex's distance and pushing it keeps the queue facts |
| Chemins.RelaxationPredecesseurs | TP_3/graphe.cpp:152-154 | recording the popped vertex as predecessor after an improving arc keeps the predecessor facts |
| Chemins.Relaxation | TP_3/graphe.cpp:148-156 | an improving arc never targets a settled vertex, and applying it keeps the invariant |
| Chemins.RelaxationReglees | TP_3/graphe.cpp:152-153 | lowering an unpopped distance keeps the settled vertices minimal and relaxed |
| Chemins.Inatteignable | TP_3/graphe.cpp:140-163 | when the queue empties before the destination is popped, it has no predecessor and no path lighter than the sentinel |
| Chemins.PasSansRelaxation | TP_3/graphe.cpp:148-152 | a non-improving arc leaves the state unchanged and one arc further in the scan |
| Chemins.PasAvecRelaxation | TP_3/graphe.cpp:148-156 | an improving arc's three updates keep the scan invariant one arc further and lower the distance sum |
| Chemins.FinRelaxation | TP_3/graphe.cpp:148-157 | once every arc is scanned, the popped vertex is relaxed and the search invariant holds |
| Chemins.Remontee | TP_3/graphe.cpp:166-168 | a predecessor was settled earlier and extends the path from its successor within the distance budget |
| Gtfs.CorpsSuivant | TP_1/aRemettrePourTP1.cpp:24-41 | proof helper (one-step unfolding of `Corps`): with the counter starting at 0, line 0 is skipped and each later line is processed once, in order |
| Gtfs.IndexerSuivant | TP_1/aRemettrePourTP1.cpp:37 | proof helper (one-step unfolding of `Indexer`): one more row inserts its entry into the map built so far |
| Gtfs.PremierIndice | TP_1/aRemettrePourTP1.cpp:37 | index of the first row with key `k`, or -1; no earlier row has that key |
| Gtfs.IndexerPremier | TP_1/aRemettrePourTP1.cpp:24-42 | after `insert` of each row, a key is present iff it was or some row has it. An old key keeps its value; a new key holds the value of the FIRST row with it |
| Gtfs.IndexerParNumeroValeurs | TP_1/aRemettrePourTP1.cpp:38 | under each number: the old lines followed by that number's rows' lines in row order. A number is a key iff it was or some row has it |
| Gtfs.TransfertsRetenusSpec | TP_1/aRemettrePourTP1.cpp:96-112 | a transfer is appended iff some row with both stations known yields it; a row with time "0" yields time 1. Recorded from-stations are exactly the appended transfers' origins, and there are no more transfers than rows |
| Gtfs.ServicesAdmisSpec | TP_1/aRemettrePourTP1.cpp:132-146 | a service id is inserted iff some row has exception type "1" on the loaded date |
| Gtfs.VoyagesAdmisSpec | TP_1/aRemettrePourTP1.cpp:178-183 | a trip row is admitted iff its service id is among the loaded services |
| Gtfs.VoyagesCharges | TP_1/aRemettrePourTP1.cpp:164-187 | a route id is a key iff it was or an admitted row has it. Old entries are kept; a new one is an admitted row's trip with that route id and no stop |
| Gtfs.ArretsAdmisSpec | TP_1/aRemettrePourTP1.cpp:222-227 | a stop is created iff some row names a known trip key, arrives before `now2` and leaves at or after `now1`. At most one stop per row |
| Gtfs.AjouterAuxVoyages | TP_1/aRemettrePourTP1.cpp:228 | appending stops to trips never adds or removes a trip |
| Gtfs.AjouterAuxVoyagesSpec | TP_1/aRemettrePourTP1.cpp:207-235 | each trip keeps its fields and gains, after its old stops, exactly the admitted stops naming it, in order |
| Gtfs.BorneSuperieure | TP_1/aRemettrePourTP1.cpp:229 | where `addArret` files a stop in the station's arrival-time multimap: every stop before that position arrives no later than it, and the stop at that position (if any) arrives later |
| Gtfs.InsererParArriveeSpec | TP_1/aRemettrePourTP1.cpp:229 | filing one stop adds exactly that stop (multiset). Earlier-or-equal arrivals stay before it and later ones after it, so equal arrivals keep insertion order. A sorted list stays sorted |
| Gtfs.InsererTousSpec | TP_1/aRemettrePourTP1.cpp:207-235 | filing stops in turn adds exactly those stops (multiset, hence length), and keeps a station's stops sorted by arrival |
| Gtfs.AjouterAuxStationsSpec | TP_1/aRemettrePourTP1.cpp:207-235 | a station is a key iff it was or a stop names it. Each keeps its fields (a new one those of the default station), and its stops are its old ones with each of its new stops filed by arrival time, in row order |
| Gtfs.ArretSuivant | TP_1/aRemettrePourTP1.cpp:226-231 | proof helper (one-step unfolding of `AjouterAuxVoyages` and `AjouterAuxStations`): one more admitted stop updates only its trip and its station |
| Gtfs.ChargementArrets | TP_1/aRemettrePourTP1.cpp:198-257 | after stops and pruning: a trip remains iff it was present and has a stop; a station remains iff it was present or got one and has a stop. A trip carries its old stops then its new ones. A station carries exactly its old and new stops (multiset), sorted by arrival when its old ones were. None is left empty |
| Gtfs.StationsTriees | TP_1/aRemettrePourTP1.cpp:198-257 | if every station's stops were sorted by arrival before the stop loader, every remaining station's stops are sorted after it |
| Chargement.DonneesGtfs.AjouterLignes | TP_1/aRemettrePourTP1.cpp:11-44 | lines by id become `Indexer(old, rows after the header)` and lines by number `IndexerParNumero(old, same rows)` |
| Chargement.DonneesGtfs.AjouterStations | TP_1/aRemettrePourTP1.cpp:49-72 | stations become `Indexer(old, rows after the header)` |
| Chargement.DonneesGtfs.AjouterTransferts | TP_1/aRemettrePourTP1.cpp:82-115 | transfers become the old ones followed by the retained ones; from-stations are the old set plus the retained origins |
| Chargement.DonneesGtfs.AjouterServices | TP_1/aRemettrePourTP1.cpp:121-148 | services become the old set plus the ids added on the date |
| Chargement.DonneesGtfs.AjouterVoyagesDeLaDate | TP_1/aRemettrePourTP1.cpp:154-189 | trips become the old ones with each admitted row inserted under its route id, in order |
| Chargement.DonneesGtfs.AjouterVoyageDeLaDate | TP_1/aRemettrePourTP1.cpp:166-183 | scanning the services inserts the row's trip under its route id iff its service is loaded; otherwise no change |
| Chargement.DonneesGtfs.AjouterArretsDesVoyagesDeLaDate | TP_1/aRemettrePourTP1.cpp:198-261 | trips receive the admitted stops appended; stations receive them filed by arrival time. Both are then pruned of entries without stops. Stations sorted before stay sorted, the stop count grows by the number admitted, and the flag is raised |
| Chargement.DonneesGtfs.AjouterArret | TP_1/aRemettrePourTP1.cpp:209-231 | an admitted row appends its stop to its trip, files it by arrival time in its station (default-created), and counts it; any other row changes nothing |
| Chargement.DonneesGtfs.ElaguerLesVoyages | TP_1/aRemettrePourTP1.cpp:236-245 | erases exactly the trips with no stop |
| Chargement.DonneesGtfs.ElaguerLesStations | TP_1/aRemettrePourTP1.cpp:247-257 | erases exactly the stations with no stop |

## Left out

- File access, `getline` and the `cerr` messages are not modelled. Each loader takes its file's lines as a sequence of rows; a file that fails to open is the empty sequence.
- `string_to_vector` splitting, and the `stoi`/`stoul`/`stod` conversions with their exceptions, are not modelled. Rows carry the fields already split, times as integers (seconds) and dates as `Date` values.
- The `Heure` and `Date` classes, `Coordonnees` parsing and `Ligne::couleurToCategorie` are not part of this model. Coordinates are kept as text and a line keeps its colour instead of its category.
- The unused values the loaders compute are not modelled: `stoi(route[0])`, `min_transfer_time`, and the `Date` built from the service id in ajouterVoyagesDeLaDate, whose `stoul` may throw on an id that is not numeric.
- The `m_tousLesArretsPresents` check in ajouterTransferts only prints a message, so it is left out; the loader proceeds either way, as the code does.
- The DonneesGTFS constructor and the header that declares the containers are not part of this model. `Chargement.DonneesGtfs.constructor` only sets up empty containers. `m_lignes_par_numero` is taken to be a multimap, and the stops of a trip to be kept in insertion order.
- `Station::addArret` is not part of this model. The stations' stop container is read elsewhere in the repository as an index ordered by arrival time (`lower_bound` on an arrival `Heure`, `->first`, `->second`). The model therefore keeps a station's stops as a sequence sorted on `arrivee` and files each new stop after every stop arriving at or before it, as `std::multimap::insert` does. If that container were a `std::map`, a second stop with an already-present arrival time would be dropped; the model does not capture that.
- The order in which the two pruning loops and the scan of the services visit their keys is not modelled; the resulting containers do not depend on it.
- Graphes.Graphe.PlusCourtChemin: sums distances as unbounded integers, so it does not model the `unsigned int` wrap-around of `dist[current] + edge.poids` (graphe.cpp:150).
- Graphes.Graphe.PlusCourtChemin: does not model the narrowing of that sum to the queue's `int` key (graphe.cpp:133), which reorders keys of 2^31 and more.
- Graphes.Graphe.PlusCourtChemin: requires both vertices to exist, following the documented precondition (graphe.cpp:111), although the code returns 0 and `[destination]` without indexing anything when both are the same out-of-range index. It also requires every arc to point at an existing vertex, which `resize` can break by leaving arcs to removed vertices.
- Graphes.Graphe.PlusCourtChemin: leaves open which of several entries with equal keys `top()` returns, so it does not say which path is returned when several are minimal; the proved result holds for every choice.
- Graphes.Graphe.PlusCourtChemin: the code reports a path whose sum is exactly 2^32-1 as unreachable. A larger sum wraps around at graphe.cpp:150 and can be taken as a short distance: arcs o→a of weight 2^32-2 and a→d of weight 5 make the code return cost 3 with path [o, a, d]. The model, summing without bound, reports every sum of 2^32-1 or more as unreachable and does not capture that wrap.
- Sizes are unbounded naturals: the `size_t` limits are not modelled, and -1 stands for `numeric_limits<size_t>::max()`.
- Path weights between two vertices use the cheapest of any parallel arcs.
