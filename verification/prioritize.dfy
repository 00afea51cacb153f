/** The prioritisation script: it takes the serialised alignments, keeps
    those touching a primary namespace, files each under its primary place
    in the first review category whose criteria it meets, lists each place
    under the lowest category it reached, ranks the places of a category by
    their number of categorised alignments, and attaches inference-only
    alignments that build on what is already listed.
 */
module Prioritize {
  import opened Wrappers
  import opened Strings

  type Hash = int

  /** A place description carried by a serialised alignment under a
      namespace key; passed through unchanged. */
  type Info = map<string, string>

  /** One serialised alignment as the script reads it from JSON. */
  datatype Record = Record(
    hash: Hash,
    alignedIds: seq<string>,
    alignedNamespaces: seq<string>,
    authorities: seq<string>,
    modes: seq<string>,
    proximity: Option<string>,
    distance: Option<real>,
    places: map<string, Info>)
  {
    function ModeSet(): set<string>
    {
      set m | m in modes
    }

    function AuthoritySet(): set<string>
    {
      set x | x in authorities
    }
  }

  // ---------------------------------------------------------------------
  // Categories
  // ---------------------------------------------------------------------

  /** A category: the exact mode set it wants and, when not empty, the
      proximity labels it accepts. */
  datatype Criterion = Criterion(modes: set<string>, proximityTypes: set<string>)

  const AllFour: set<string> := {"assertion", "proximity", "toponymy", "typology"}
  const Unasserted: set<string> := {"proximity", "toponymy", "typology"}
  const Untyped: set<string> := {"assertion", "proximity", "toponymy"}
  const Named: set<string> := {"assertion", "toponymy"}

  /** Categories 1 to 8, in the order they are tried. */
  const Criteria: seq<Criterion> := [
    Criterion(AllFour, {"identical", "tight"}),
    Criterion(AllFour, {"overlapping"}),
    Criterion(AllFour, {"close"}),
    Criterion(Unasserted, {"identical", "tight"}),
    Criterion(Unasserted, {"overlapping"}),
    Criterion(Unasserted, {"close"}),
    Criterion(Untyped, {"identical", "tight", "overlapping", "close"}),
    Criterion(Named, {})
  ]

  const LowestCategory: nat := 1
  const HighestCategory: nat := 8

  predicate Meets(c: Criterion, modes: set<string>, proximity: Option<string>)
  {
    modes == c.modes && (c.proximityTypes == {} || (proximity.Some? && proximity.value in c.proximityTypes))
  }

  /** The first category from the `k`-th on whose criteria are met. */
  function CategoryFrom(k: nat, modes: set<string>, proximity: Option<string>): (r: Option<nat>)
    requires k <= |Criteria|
    ensures r.Some? ==> k < r.value <= |Criteria| && Meets(Criteria[r.value - 1], modes, proximity)
    ensures r.Some? ==> forall j :: k <= j < r.value - 1 ==> !Meets(Criteria[j], modes, proximity)
    ensures r.None? <==> forall j :: k <= j < |Criteria| ==> !Meets(Criteria[j], modes, proximity)
    decreases |Criteria| - k
  {
    if k == |Criteria| then None
    else if Meets(Criteria[k], modes, proximity) then Some(k + 1)
    else CategoryFrom(k + 1, modes, proximity)
  }

  /** The category an alignment is filed under: the first whose mode set
      equals its modes and whose proximity labels, if any, include its
      proximity; none when no category fits. */
  function Category(modes: set<string>, proximity: Option<string>): (r: Option<nat>)
    ensures r.Some? ==> LowestCategory <= r.value <= HighestCategory
    ensures r.Some? ==> Meets(Criteria[r.value - 1], modes, proximity)
    ensures r.Some? ==> forall j :: 0 <= j < r.value - 1 ==> !Meets(Criteria[j], modes, proximity)
    ensures r.None? <==> forall j :: 0 <= j < |Criteria| ==> !Meets(Criteria[j], modes, proximity)
  {
    CategoryFrom(0, modes, proximity)
  }

  /** With all four kinds of evidence the proximity label alone decides:
      identical or tight is 1, overlapping 2, close 3, anything else (or
      none) leaves the alignment uncategorised. */
  lemma AllFourCategory(proximity: Option<string>)
    ensures Category(AllFour, proximity) ==
      if proximity == Some("identical") || proximity == Some("tight") then Some(1)
      else if proximity == Some("overlapping") then Some(2)
      else if proximity == Some("close") then Some(3)
      else None
  {
    assert "assertion" in AllFour && "assertion" !in Unasserted;
    assert "typology" in AllFour && "typology" !in Untyped && "typology" !in Named;
  }

  /** An asserted alignment with a shared name and no other evidence is
      always category 8, whatever its proximity. */
  lemma NamedCategory(proximity: Option<string>)
    ensures Category(Named, proximity) == Some(8)
  {
    assert "typology" in AllFour && "typology" !in Named;
    assert "typology" in Unasserted;
    assert "proximity" in Untyped && "proximity" !in Named;
  }

  /** No category takes an alignment supported by inference alone. */
  lemma InferenceUncategorised(proximity: Option<string>)
    ensures Category({"inference"}, proximity).None?
  {
    forall j | 0 <= j < |Criteria|
      ensures !Meets(Criteria[j], {"inference"}, proximity)
    {
      assert "inference" !in Criteria[j].modes;
    }
  }

  // ---------------------------------------------------------------------
  // Picking ids
  // ---------------------------------------------------------------------

  /** Every category wants the toponymy mode, which the aligner's
      `Alignment` never records: alignments whose modes are among the three
      the aligner supports are never categorised. */
  lemma SupportedModesUncategorised(modes: set<string>, proximity: Option<string>)
    requires modes <= {"assertion", "proximity", "inference"}
    ensures Category(modes, proximity).None?
  {
    forall j | 0 <= j < |Criteria|
      ensures !Meets(Criteria[j], modes, proximity)
    {
      assert "toponymy" in Criteria[j].modes;
    }
  }

  /** Python `[x for x in xs if keep(x)][0]`: the first element kept, or
      IndexError when there is none. */
  function FirstWith(xs: seq<string>, keep: string -> bool): (r: Result<string>)
    ensures r.Ok? ==> keep(r.value) && r.value in xs
    ensures r.Err? <==> forall i :: 0 <= i < |xs| ==> !keep(xs[i])
    ensures r.Err? ==> r.error == IndexError
  {
    if |xs| == 0 then Err(IndexError)
    else if keep(xs[0]) then Ok(xs[0])
    else
      assert forall i :: 1 <= i < |xs| ==> xs[i] == xs[1..][i - 1];
      FirstWith(xs[1..], keep)
  }

  /** What `FirstWith` finds comes before every other element kept. */
  lemma {:induction false} FirstWithIsFirst(xs: seq<string>, keep: string -> bool)
    requires FirstWith(xs, keep).Ok?
    ensures exists i :: (0 <= i < |xs| && xs[i] == FirstWith(xs, keep).value
      && forall j :: 0 <= j < i ==> !keep(xs[j]))
  {
    if !keep(xs[0]) {
      FirstWithIsFirst(xs[1..], keep);
      var i :| 0 <= i < |xs[1..]| && xs[1..][i] == FirstWith(xs[1..], keep).value
        && forall j :: 0 <= j < i ==> !keep(xs[1..][j]);
      assert forall j :: 1 <= j <= i ==> xs[j] == xs[1..][j - 1];
      assert xs[i + 1] == FirstWith(xs, keep).value;
    } else {
      assert xs[0] == FirstWith(xs, keep).value;
    }
  }

  /** The first aligned id in the primary namespace. */
  function PrimaryPid(a: Record, ns: string): Result<string>
  {
    FirstWith(a.alignedIds, id => StartsWith(id, ns))
  }

  /** The first aligned id other than `pid`. */
  function OtherPid(a: Record, pid: string): Result<string>
  {
    FirstOther(a.alignedIds, pid)
  }

  /** Python `[x for x in xs if x != y][0]`. */
  function FirstOther(xs: seq<string>, y: string): (r: Result<string>)
    ensures r.Ok? ==> r.value != y && r.value in xs
    ensures r.Err? <==> forall i :: 0 <= i < |xs| ==> xs[i] == y
    ensures r.Err? ==> r.error == IndexError
  {
    if |xs| == 0 then Err(IndexError)
    else if xs[0] != y then Ok(xs[0])
    else
      assert forall i :: 1 <= i < |xs| ==> xs[i] == xs[1..][i - 1];
      FirstOther(xs[1..], y)
  }

  /** The first aligned namespace other than the primary one. */
  function OtherNamespace(a: Record, ns: string): Result<string>
  {
    FirstOther(a.alignedNamespaces, ns)
  }

  // ---------------------------------------------------------------------
  // Filtering
  // ---------------------------------------------------------------------

  /** The alignments touching namespace `ns`, keyed by hash; a later record
      with the same hash replaces an earlier one. */
  function Keep(records: seq<Record>, ns: string): (r: map<Hash, Record>)
    ensures forall h :: h in r <==> exists i :: 0 <= i < |records| && records[i].hash == h && ns in records[i].alignedNamespaces
    ensures forall h :: h in r ==> r[h].hash == h && ns in r[h].alignedNamespaces
    decreases |records|
  {
    if |records| == 0 then map[]
    else
      var n := |records| - 1;
      var before := Keep(records[..n], ns);
      assert forall i :: 0 <= i < n ==> records[..n][i] == records[i];
      if ns in records[n].alignedNamespaces then before[records[n].hash := records[n]] else before
  }

  /** Keeping `records` is keeping all but the last, then the last if it
      touches `ns`. */
  lemma KeepSnoc(records: seq<Record>, ns: string)
    requires 0 < |records|
    ensures var n := |records| - 1;
      Keep(records, ns) == if ns in records[n].alignedNamespaces
        then Keep(records[..n], ns)[records[n].hash := records[n]] else Keep(records[..n], ns)
  {
  }

  /** The record kept under a hash is the last one carrying it. */
  lemma {:induction false} KeepLast(records: seq<Record>, ns: string, i: nat)
    requires i < |records| && ns in records[i].alignedNamespaces
    requires forall j :: i < j < |records| ==> !(records[j].hash == records[i].hash && ns in records[j].alignedNamespaces)
    ensures Keep(records, ns)[records[i].hash] == records[i]
    decreases |records|
  {
    var n := |records| - 1;
    KeepSnoc(records, ns);
    if i < n {
      assert forall j :: i < j < n ==> records[..n][j] == records[j];
      KeepLast(records[..n], ns, i);
    }
  }

  /** The hashes of the kept records in the order they were first read,
      the order the script walks them in. */
  function KeptOrder(records: seq<Record>, ns: string): (r: seq<Hash>)
    ensures forall h :: h in r <==> h in Keep(records, ns)
    ensures forall i, j :: 0 <= i < j < |r| ==> r[i] != r[j]
    decreases |records|
  {
    if |records| == 0 then []
    else
      var n := |records| - 1;
      var before := KeptOrder(records[..n], ns);
      if ns in records[n].alignedNamespaces && records[n].hash !in before then before + [records[n].hash] else before
  }

  // ---------------------------------------------------------------------
  // Filing under primary places
  // ---------------------------------------------------------------------

  /** The script's bookkeeping per primary place: its categorised
      alignments, its inference-only alignments, the categories it reached,
      and the places in the order they were first categorised. Python sets
      are listed in insertion order. */
  datatype Buckets = Buckets(
    byPid: map<string, seq<Hash>>,
    inferenceOnly: map<string, seq<Hash>>,
    categories: map<string, set<nat>>,
    pids: seq<string>)

  const NoBuckets := Buckets(map[], map[], map[], [])

  /** The hashes listed for `pid`, none when it has no entry. */
  function Bucket(m: map<string, seq<Hash>>, pid: string): seq<Hash>
  {
    if pid in m then m[pid] else []
  }

  /** The categories recorded for `pid`, none when it has no entry. */
  function Cats(b: Buckets, pid: string): set<nat>
  {
    if pid in b.categories then b.categories[pid] else {}
  }

  /** `m[k].add(h)`, creating the entry when missing. */
  function Added(m: map<string, seq<Hash>>, k: string, h: Hash): (r: map<string, seq<Hash>>)
    ensures r.Keys == m.Keys + {k}
    ensures forall k' :: k' != k ==> Bucket(r, k') == Bucket(m, k')
    ensures forall x :: x in Bucket(r, k) <==> x == h || x in Bucket(m, k)
  {
    var prior := Bucket(m, k);
    m[k := if h in prior then prior else prior + [h]]
  }

  predicate InferenceOnly(a: Record)
  {
    a.ModeSet() == {"inference"}
  }

  /** Where the filing loop puts an alignment. */
  datatype Kind = Inferred | Categorised(category: nat) | Dropped

  /** An alignment with modes exactly {inference} waits in its place's
      inference-only bucket; any other goes under its category, or is
      dropped when no category fits. */
  function KindOf(a: Record): (r: Kind)
    ensures r == Inferred <==> InferenceOnly(a)
    ensures r.Categorised? ==> LowestCategory <= r.category <= HighestCategory
    ensures r.Categorised? ==> Category(a.ModeSet(), a.proximity) == Some(r.category)
    ensures r == Dropped <==> !InferenceOnly(a) && Category(a.ModeSet(), a.proximity).None?
  {
    if InferenceOnly(a) then Inferred
    else match Category(a.ModeSet(), a.proximity)
      case None => Dropped
      case Some(c) => Categorised(c)
  }

  /** The two facts filing needs about an alignment: its primary id
      (`home`) and where it goes (`kind`). The script's own choices are
      `PrimaryPid` and `KindOf`; the bookkeeping is stated for any. */
  type Home = Record -> Result<string>
  type Sorter = Record -> Kind

  /** Filing one alignment under its primary place. */
  function File(home: Home, kind: Sorter, b: Buckets, h: Hash, a: Record): (r: Result<Buckets>)
    ensures r.Ok? <==> home(a).Ok?
    ensures r.Err? ==> r == Err(home(a).error)
  {
    var pid :- home(a);
    match kind(a)
    case Inferred => Ok(b.(inferenceOnly := Added(b.inferenceOnly, pid, h)))
    case Dropped => Ok(b)
    case Categorised(c) =>
      var known := pid in b.categories;
      Ok(Buckets(Added(b.byPid, pid, h), b.inferenceOnly,
                 b.categories[pid := Cats(b, pid) + {c}],
                 if known then b.pids else b.pids + [pid]))
  }

  /** The inference-only bucket of a place holds exactly the alignments
      with modes exactly {inference} whose primary id it is. */
  ghost predicate FiledInference(home: Home, kind: Sorter, kept: map<Hash, Record>, hs: seq<Hash>, b: Buckets)
    requires forall i :: 0 <= i < |hs| ==> hs[i] in kept
  {
    forall pid, h :: h in Bucket(b.inferenceOnly, pid) <==>
      (h in hs && kind(kept[h]) == Inferred && home(kept[h]) == Ok(pid))
  }

  /** The categorised bucket of a place holds exactly the categorised
      alignments whose primary id it is. */
  ghost predicate FiledCategorised(home: Home, kind: Sorter, kept: map<Hash, Record>, hs: seq<Hash>, b: Buckets)
    requires forall i :: 0 <= i < |hs| ==> hs[i] in kept
  {
    forall pid, h :: h in Bucket(b.byPid, pid) <==>
      (h in hs && kind(kept[h]).Categorised? && home(kept[h]) == Ok(pid))
  }

  /** The categories the alignments `hs` of place `pid` reach. */
  ghost function Reached(home: Home, kind: Sorter, kept: map<Hash, Record>, hs: seq<Hash>, pid: string): set<nat>
    requires forall i :: 0 <= i < |hs| ==> hs[i] in kept
  {
    set x | x in hs && home(kept[x]) == Ok(pid) && kind(kept[x]).Categorised? :: kind(kept[x]).category
  }

  /** The categories of a place are exactly those its alignments reached. */
  ghost predicate FiledCategories(home: Home, kind: Sorter, kept: map<Hash, Record>, hs: seq<Hash>, b: Buckets)
    requires forall i :: 0 <= i < |hs| ==> hs[i] in kept
  {
    forall pid :: Cats(b, pid) == Reached(home, kind, kept, hs, pid)
  }

  /** The places with categories are listed once each, and have a bucket. */
  ghost predicate Listed(b: Buckets)
  {
    && b.byPid.Keys == b.categories.Keys
    && (forall pid :: pid in b.categories ==> b.categories[pid] != {})
    && (forall pid :: pid in b.pids <==> pid in b.categories)
    && (forall i, j :: 0 <= i < j < |b.pids| ==> b.pids[i] != b.pids[j])
  }

  /** Everything filed so far is as the three rules above say. */
  ghost predicate Filed(home: Home, kind: Sorter, kept: map<Hash, Record>, hs: seq<Hash>, b: Buckets)
    requires forall i :: 0 <= i < |hs| ==> hs[i] in kept
  {
    && FiledInference(home, kind, kept, hs, b)
    && FiledCategorised(home, kind, kept, hs, b)
    && FiledCategories(home, kind, kept, hs, b)
    && Listed(b)
  }

  /** The filing loop over the kept alignments in `order`; it stops at the
      first alignment without a primary id. */
  function CategoriseBy(home: Home, kind: Sorter, kept: map<Hash, Record>, order: seq<Hash>): (r: Result<Buckets>)
    requires forall i :: 0 <= i < |order| ==> order[i] in kept
    ensures r.Ok? <==> forall i :: 0 <= i < |order| ==> home(kept[order[i]]).Ok?
    ensures r.Err? ==> exists i :: 0 <= i < |order| && home(kept[order[i]]) == Err(r.error)
    decreases |order|
  {
    if |order| == 0 then Ok(NoBuckets)
    else
      var n := |order| - 1;
      assert forall i :: 0 <= i < n ==> order[..n][i] == order[i];
      var b :- CategoriseBy(home, kind, kept, order[..n]);
      File(home, kind, b, order[n], kept[order[n]])
  }

  /** The loop over `order` is the loop over all but the last alignment,
      followed by filing the last one. */
  lemma CategoriseBySnoc(home: Home, kind: Sorter, kept: map<Hash, Record>, order: seq<Hash>)
    requires 0 < |order| && forall i :: 0 <= i < |order| ==> order[i] in kept
    requires CategoriseBy(home, kind, kept, order).Ok?
    ensures var n := |order| - 1;
      && (forall i :: 0 <= i < n ==> order[..n][i] in kept)
      && order[..n] + [order[n]] == order
      && CategoriseBy(home, kind, kept, order[..n]).Ok?
      && CategoriseBy(home, kind, kept, order) ==
           File(home, kind, CategoriseBy(home, kind, kept, order[..n]).value, order[n], kept[order[n]])
  {
    var n := |order| - 1;
    assert forall i :: 0 <= i < n ==> order[..n][i] == order[i];
  }

  /** The inference-only buckets of the loop's result follow the rule. */
  lemma {:induction false} CategoriseByInference(home: Home, kind: Sorter, kept: map<Hash, Record>, order: seq<Hash>)
    requires forall i :: 0 <= i < |order| ==> order[i] in kept
    requires CategoriseBy(home, kind, kept, order).Ok?
    ensures FiledInference(home, kind, kept, order, CategoriseBy(home, kind, kept, order).value)
    decreases |order|
  {
    if |order| > 0 {
      var n := |order| - 1;
      CategoriseBySnoc(home, kind, kept, order);
      CategoriseByInference(home, kind, kept, order[..n]);
      FileInference(home, kind, kept, order[..n], CategoriseBy(home, kind, kept, order[..n]).value,
        order[n], CategoriseBy(home, kind, kept, order).value);
    }
  }

  /** The categorised buckets of the loop's result follow the rule. */
  lemma {:induction false} CategoriseByCategorised(home: Home, kind: Sorter, kept: map<Hash, Record>, order: seq<Hash>)
    requires forall i :: 0 <= i < |order| ==> order[i] in kept
    requires CategoriseBy(home, kind, kept, order).Ok?
    ensures FiledCategorised(home, kind, kept, order, CategoriseBy(home, kind, kept, order).value)
    decreases |order|
  {
    if |order| > 0 {
      var n := |order| - 1;
      CategoriseBySnoc(home, kind, kept, order);
      CategoriseByCategorised(home, kind, kept, order[..n]);
      FileCategorised(home, kind, kept, order[..n], CategoriseBy(home, kind, kept, order[..n]).value,
        order[n], CategoriseBy(home, kind, kept, order).value);
    }
  }

  /** The category sets of the loop's result follow the rule. */
  lemma {:induction false} CategoriseByCategories(home: Home, kind: Sorter, kept: map<Hash, Record>, order: seq<Hash>)
    requires forall i :: 0 <= i < |order| ==> order[i] in kept
    requires CategoriseBy(home, kind, kept, order).Ok?
    ensures FiledCategories(home, kind, kept, order, CategoriseBy(home, kind, kept, order).value)
    decreases |order|
  {
    if |order| > 0 {
      var n := |order| - 1;
      CategoriseBySnoc(home, kind, kept, order);
      CategoriseByCategories(home, kind, kept, order[..n]);
      FileCategories(home, kind, kept, order[..n], CategoriseBy(home, kind, kept, order[..n]).value,
        order[n], CategoriseBy(home, kind, kept, order).value);
    }
  }

  /** The loop's result lists every place with categories once. */
  lemma {:induction false} CategoriseByListed(home: Home, kind: Sorter, kept: map<Hash, Record>, order: seq<Hash>)
    requires forall i :: 0 <= i < |order| ==> order[i] in kept
    requires CategoriseBy(home, kind, kept, order).Ok?
    ensures Listed(CategoriseBy(home, kind, kept, order).value)
    decreases |order|
  {
    if |order| > 0 {
      var n := |order| - 1;
      CategoriseBySnoc(home, kind, kept, order);
      CategoriseByListed(home, kind, kept, order[..n]);
      FileListed(home, kind, CategoriseBy(home, kind, kept, order[..n]).value, order[n], kept[order[n]]);
    }
  }

  /** Whatever the loop files is filed as the rules say. */
  lemma CategoriseByFiled(home: Home, kind: Sorter, kept: map<Hash, Record>, order: seq<Hash>)
    requires forall i :: 0 <= i < |order| ==> order[i] in kept
    requires CategoriseBy(home, kind, kept, order).Ok?
    ensures Filed(home, kind, kept, order, CategoriseBy(home, kind, kept, order).value)
  {
    CategoriseByInference(home, kind, kept, order);
    CategoriseByCategorised(home, kind, kept, order);
    CategoriseByCategories(home, kind, kept, order);
    CategoriseByListed(home, kind, kept, order);
  }

  /** Filing one more alignment keeps every place with categories listed once. */
  lemma FileListed(home: Home, kind: Sorter, b: Buckets, h: Hash, a: Record)
    requires Listed(b) && File(home, kind, b, h, a).Ok?
    ensures Listed(File(home, kind, b, h, a).value)
  {
    var pid := home(a).value;
    var r := File(home, kind, b, h, a).value;
    match kind(a)
    case Categorised(c) =>
      assert r.categories.Keys == b.categories.Keys + {pid};
      assert r.byPid.Keys == b.byPid.Keys + {pid};
      if pid !in b.categories {
        assert r.pids == b.pids + [pid];
        assert forall x :: x in r.pids <==> x in b.pids || x == pid;
      }
    case _ =>
      assert r.categories == b.categories && r.byPid == b.byPid && r.pids == b.pids;
  }

  lemma FileInference(home: Home, kind: Sorter, kept: map<Hash, Record>, hs: seq<Hash>, b: Buckets, h: Hash, r: Buckets)
    requires forall i :: 0 <= i < |hs| ==> hs[i] in kept
    requires h in kept && FiledInference(home, kind, kept, hs, b)
    requires File(home, kind, b, h, kept[h]) == Ok(r)
    ensures FiledInference(home, kind, kept, hs + [h], r)
  {
    var p := home(kept[h]).value;
    assert r.inferenceOnly == if kind(kept[h]) == Inferred then Added(b.inferenceOnly, p, h) else b.inferenceOnly;
    assert forall x :: x in hs + [h] <==> x in hs || x == h;
  }

  lemma FileCategorised(home: Home, kind: Sorter, kept: map<Hash, Record>, hs: seq<Hash>, b: Buckets, h: Hash, r: Buckets)
    requires forall i :: 0 <= i < |hs| ==> hs[i] in kept
    requires h in kept && FiledCategorised(home, kind, kept, hs, b)
    requires File(home, kind, b, h, kept[h]) == Ok(r)
    ensures FiledCategorised(home, kind, kept, hs + [h], r)
  {
    var p := home(kept[h]).value;
    assert r.byPid == if kind(kept[h]).Categorised? then Added(b.byPid, p, h) else b.byPid;
    assert forall x :: x in hs + [h] <==> x in hs || x == h;
  }

  lemma FileCategories(home: Home, kind: Sorter, kept: map<Hash, Record>, hs: seq<Hash>, b: Buckets, h: Hash, r: Buckets)
    requires forall i :: 0 <= i < |hs| ==> hs[i] in kept
    requires h in kept && FiledCategories(home, kind, kept, hs, b)
    requires File(home, kind, b, h, kept[h]) == Ok(r)
    ensures FiledCategories(home, kind, kept, hs + [h], r)
  {
    var p := home(kept[h]).value;
    assert r.categories == match kind(kept[h])
      case Categorised(c) => b.categories[p := Cats(b, p) + {c}]
      case _ => b.categories;
    forall pid
      ensures Cats(r, pid) == Reached(home, kind, kept, hs + [h], pid)
    {
      ReachedSnoc(home, kind, kept, hs, h, pid);
    }
  }

  lemma ReachedSnoc(home: Home, kind: Sorter, kept: map<Hash, Record>, hs: seq<Hash>, h: Hash, pid: string)
    requires forall i :: 0 <= i < |hs| ==> hs[i] in kept
    requires h in kept
    ensures Reached(home, kind, kept, hs + [h], pid) == Reached(home, kind, kept, hs, pid) +
      (if home(kept[h]) == Ok(pid) && kind(kept[h]).Categorised? then {kind(kept[h]).category} else {})
  {
    assert forall x :: x in hs + [h] <==> x in hs || x == h;
  }

  /** `main`'s filing loop with the script's primary id and category. */
  function Categorise(kept: map<Hash, Record>, order: seq<Hash>, ns: string): (r: Result<Buckets>)
    requires forall i :: 0 <= i < |order| ==> order[i] in kept
    ensures r.Ok? <==> forall i :: 0 <= i < |order| ==> PrimaryPid(kept[order[i]], ns).Ok?
    ensures r.Err? ==> r.error == IndexError
    ensures r.Ok? ==> Filed(a => PrimaryPid(a, ns), KindOf, kept, order, r.value)
  {
    var r := CategoriseBy(a => PrimaryPid(a, ns), KindOf, kept, order);
    if r.Ok? then
      CategoriseByFiled(a => PrimaryPid(a, ns), KindOf, kept, order);
      r
    else r
  }

  // ---------------------------------------------------------------------
  // Lowest category and ranking
  // ---------------------------------------------------------------------

  /** Every place filed has categories, all between 1 and 8. */
  ghost predicate Ranged(b: Buckets)
  {
    forall pid :: pid in b.categories ==>
      b.categories[pid] != {} && forall c :: c in b.categories[pid] ==> LowestCategory <= c <= HighestCategory
  }

  /** `min(cats)` for categories between `k` and 8. */
  function LowestFrom(cats: set<nat>, k: nat): (m: nat)
    requires cats != {} && forall c :: c in cats ==> k <= c <= HighestCategory
    ensures m in cats && forall c :: c in cats ==> m <= c
    decreases HighestCategory - k
  {
    if k in cats then k else LowestFrom(cats, k + 1)
  }

  /** The lowest category a place reached. */
  function Lowest(cats: set<nat>): (m: nat)
    requires cats != {} && forall c :: c in cats ==> LowestCategory <= c <= HighestCategory
    ensures m in cats && forall c :: c in cats ==> m <= c
  {
    LowestFrom(cats, LowestCategory)
  }

  /** The places whose lowest category is `c`, in the order they were
      first categorised. */
  function Members(b: Buckets, c: nat, pids: seq<string>): (r: seq<string>)
    requires Ranged(b) && forall i :: 0 <= i < |pids| ==> pids[i] in b.categories
    ensures forall pid :: pid in r <==> pid in pids && Lowest(b.categories[pid]) == c
    ensures (forall i, j :: 0 <= i < j < |pids| ==> pids[i] != pids[j]) ==>
      forall i, j :: 0 <= i < j < |r| ==> r[i] != r[j]
  {
    if |pids| == 0 then []
    else
      var rest := Members(b, c, pids[1..]);
      assert forall i :: 1 <= i < |pids| ==> pids[i] == pids[1..][i - 1];
      if Lowest(b.categories[pids[0]]) == c then [pids[0]] + rest else rest
  }

  /** How many categorised alignments a place has, the ranking key. */
  function Count(b: Buckets, pid: string): nat
  {
    |Bucket(b.byPid, pid)|
  }

  predicate Descending(b: Buckets, xs: seq<string>)
  {
    forall i, j :: 0 <= i < j < |xs| ==> Count(b, xs[i]) >= Count(b, xs[j])
  }

  /** Insert `x` before the first element it does not rank below. */
  function Insert(b: Buckets, x: string, ys: seq<string>): (r: seq<string>)
    ensures multiset(r) == multiset(ys) + multiset{x}
    ensures Descending(b, ys) ==> Descending(b, r)
  {
    if |ys| == 0 || Count(b, ys[0]) <= Count(b, x) then [x] + ys
    else
      var rest := Insert(b, x, ys[1..]);
      assert ys == [ys[0]] + ys[1..];
      InsertAfter(b, x, ys, rest);
      [ys[0]] + rest
  }

  lemma InsertAfter(b: Buckets, x: string, ys: seq<string>, rest: seq<string>)
    requires |ys| > 0 && Count(b, ys[0]) > Count(b, x)
    requires multiset(rest) == multiset(ys[1..]) + multiset{x}
    requires Descending(b, ys[1..]) ==> Descending(b, rest)
    ensures Descending(b, ys) ==> Descending(b, [ys[0]] + rest)
  {
    if Descending(b, ys) {
      forall k | 0 <= k < |rest|
        ensures Count(b, ys[0]) >= Count(b, rest[k])
      {
        assert rest[k] in multiset(rest);
        if rest[k] != x {
          assert rest[k] in multiset(ys[1..]);
          var j :| 0 <= j < |ys[1..]| && ys[1..][j] == rest[k];
          assert ys[j + 1] == rest[k];
        }
      }
      assert Descending(b, ys[1..]) by {
        forall i, j | 0 <= i < j < |ys[1..]|
          ensures Count(b, ys[1..][i]) >= Count(b, ys[1..][j])
        {
          assert ys[1..][i] == ys[i + 1] && ys[1..][j] == ys[j + 1];
        }
      }
      var r := [ys[0]] + rest;
      forall i, j | 0 <= i < j < |r|
        ensures Count(b, r[i]) >= Count(b, r[j])
      {
        if i > 0 {
          assert r[i] == rest[i - 1] && r[j] == rest[j - 1];
        } else {
          assert r[j] == rest[j - 1];
        }
      }
    }
  }

  /** `sorted(pids, key=count, reverse=True)`: the same places, most
      categorised alignments first. */
  function Rank(b: Buckets, xs: seq<string>): (r: seq<string>)
    ensures multiset(r) == multiset(xs)
    ensures Descending(b, r)
  {
    if |xs| == 0 then []
    else
      assert xs == [xs[0]] + xs[1..];
      Insert(b, xs[0], Rank(b, xs[1..]))
  }

  // ---------------------------------------------------------------------
  // Listing a place
  // ---------------------------------------------------------------------

  /** One entry of a place's listing: the primary place's own description,
      or what is known about an aligned place. */
  datatype Entry =
    | PlaceEntry(description: Info)
    | LinkEntry(linked: Option<Info>, authorities: seq<string>, modes: seq<string>,
                proximity: Option<string>, distance: Option<real>)

  /** A place's listing, keyed by place id. */
  type Listing = map<string, Entry>

  /** The entry written for the other side of alignment `a`: its
      description under `otherNs` if the record carries one, with the
      alignment's authorities and modes, and its proximity label and
      centroid distance, both left out as soon as either is missing. */
  function LinkFor(a: Record, otherNs: string): (e: Entry)
    ensures e.LinkEntry? && e.authorities == a.authorities && e.modes == a.modes
    ensures e.linked == (if otherNs in a.places then Some(a.places[otherNs]) else None)
    ensures (a.proximity.None? || a.distance.None?) ==> e.proximity.None? && e.distance.None?
    ensures (a.proximity.Some? && a.distance.Some?) ==> e.proximity == a.proximity && e.distance == a.distance
  {
    var both := a.proximity.Some? && a.distance.Some?;
    LinkEntry(if otherNs in a.places then Some(a.places[otherNs]) else None,
              a.authorities, a.modes,
              if both then a.proximity else None,
              if both then a.distance else None)
  }

  /** Listing one categorised alignment of place `pid`: the place's own
      description when the record carries one, and an entry for the other
      side. */
  function Describe(entries: Listing, a: Record, pid: string, ns: string): (r: Result<Listing>)
    ensures r.Ok? <==> Describable(a, pid, ns)
    ensures r.Err? ==> r.error == IndexError
    ensures r.Ok? ==> entries.Keys <= r.value.Keys && OtherPid(a, pid).value in r.value
    ensures r.Ok? ==> r.value.Keys == entries.Keys + {OtherPid(a, pid).value} + (if ns in a.places then {pid} else {})
    ensures r.Ok? ==> r.value[OtherPid(a, pid).value] == LinkFor(a, OtherNamespace(a, ns).value)
  {
    var other :- OtherPid(a, pid);
    var withPlace := if ns in a.places then entries[pid := PlaceEntry(a.places[ns])] else entries;
    var otherNs :- OtherNamespace(a, ns);
    Ok(withPlace[other := LinkFor(a, otherNs)])
  }

  /** Listing the categorised alignments `hs` of place `pid` in turn; every
      one of them leaves an entry for its other side. */
  function DescribeAll(kept: map<Hash, Record>, hs: seq<Hash>, pid: string, ns: string): (r: Result<Listing>)
    requires forall i :: 0 <= i < |hs| ==> hs[i] in kept
    ensures r.Err? ==> r.error == IndexError
    decreases |hs|
  {
    if |hs| == 0 then Ok(map[])
    else
      var n := |hs| - 1;
      assert forall i :: 0 <= i < n ==> hs[..n][i] == hs[i];
      var before :- DescribeAll(kept, hs[..n], pid, ns);
      Describe(before, kept[hs[n]], pid, ns)
  }

  /** Listing `hs` is listing all but the last, then describing the last. */
  lemma DescribeAllSnoc(kept: map<Hash, Record>, hs: seq<Hash>, pid: string, ns: string)
    requires 0 < |hs| && forall i :: 0 <= i < |hs| ==> hs[i] in kept
    ensures var n := |hs| - 1;
      && (forall i :: 0 <= i < n ==> hs[..n][i] == hs[i] && hs[..n][i] in kept)
      && DescribeAll(kept, hs, pid, ns) ==
           if DescribeAll(kept, hs[..n], pid, ns).Err? then DescribeAll(kept, hs[..n], pid, ns)
           else Describe(DescribeAll(kept, hs[..n], pid, ns).value, kept[hs[n]], pid, ns)
  {
    var n := |hs| - 1;
    assert forall i :: 0 <= i < n ==> hs[..n][i] == hs[i];
  }

  /** An alignment has the other id and other namespace its listing needs. */
  predicate Describable(a: Record, pid: string, ns: string)
  {
    OtherPid(a, pid).Ok? && OtherNamespace(a, ns).Ok?
  }

  /** Listing fails exactly when some categorised alignment has no other
      id or no other namespace. */
  lemma {:induction false} DescribeAllOk(kept: map<Hash, Record>, hs: seq<Hash>, pid: string, ns: string)
    requires forall i :: 0 <= i < |hs| ==> hs[i] in kept
    ensures DescribeAll(kept, hs, pid, ns).Ok? <==> forall i :: 0 <= i < |hs| ==> Describable(kept[hs[i]], pid, ns)
    decreases |hs|
  {
    if |hs| > 0 {
      var n := |hs| - 1;
      DescribeAllSnoc(kept, hs, pid, ns);
      DescribeAllOk(kept, hs[..n], pid, ns);
      if DescribeAll(kept, hs, pid, ns).Ok? {
        forall i | 0 <= i < |hs|
          ensures Describable(kept[hs[i]], pid, ns)
        {
          if i < n {
            assert hs[..n][i] == hs[i];
          }
        }
      }
    }
  }

  /** Every categorised alignment leaves an entry for its other side. */
  lemma {:induction false} DescribeAllKeys(kept: map<Hash, Record>, hs: seq<Hash>, pid: string, ns: string)
    requires forall i :: 0 <= i < |hs| ==> hs[i] in kept
    requires DescribeAll(kept, hs, pid, ns).Ok?
    ensures forall i :: 0 <= i < |hs| ==> (OtherPid(kept[hs[i]], pid).Ok?
      && OtherPid(kept[hs[i]], pid).value in DescribeAll(kept, hs, pid, ns).value)
    decreases |hs|
  {
    if |hs| > 0 {
      var n := |hs| - 1;
      DescribeAllSnoc(kept, hs, pid, ns);
      DescribeAllKeys(kept, hs[..n], pid, ns);
      var before := DescribeAll(kept, hs[..n], pid, ns).value;
      var after := DescribeAll(kept, hs, pid, ns).value;
      assert before.Keys <= after.Keys;
      forall i | 0 <= i < |hs|
        ensures OtherPid(kept[hs[i]], pid).Ok? && OtherPid(kept[hs[i]], pid).value in after
      {
        if i < n {
          assert hs[..n][i] == hs[i];
        } else {
          assert hs[i] == hs[n];
        }
      }
    }
  }

  /** Attaching one inference-only alignment: only when one of its
      authorities already has an entry in the listing. */
  function Attach(entries: Listing, a: Record, pid: string, ns: string): (r: Result<Listing>)
    ensures a.AuthoritySet() * entries.Keys == {} ==> r == Ok(entries)
    ensures a.AuthoritySet() * entries.Keys != {} ==>
      (r.Ok? <==> OtherPid(a, pid).Ok? && OtherNamespace(a, ns).Ok?)
    ensures r.Err? ==> r.error == IndexError
    ensures a.AuthoritySet() * entries.Keys != {} && r.Ok? ==>
      r.value == entries[OtherPid(a, pid).value := LinkFor(a, OtherNamespace(a, ns).value)]
  {
    if a.AuthoritySet() * entries.Keys == {} then Ok(entries)
    else
      var other :- OtherPid(a, pid);
      var otherNs :- OtherNamespace(a, ns);
      Ok(entries[other := LinkFor(a, otherNs)])
  }

  /** Attaching the inference-only alignments `hs` of place `pid` in turn,
      starting from `entries`. */
  function AttachAll(kept: map<Hash, Record>, hs: seq<Hash>, pid: string, ns: string, entries: Listing): (r: Result<Listing>)
    requires forall i :: 0 <= i < |hs| ==> hs[i] in kept
    ensures r.Err? ==> r.error == IndexError
    ensures r.Ok? ==> entries.Keys <= r.value.Keys
    decreases |hs|
  {
    if |hs| == 0 then Ok(entries)
    else
      var n := |hs| - 1;
      assert forall i :: 0 <= i < n ==> hs[..n][i] == hs[i];
      var before :- AttachAll(kept, hs[..n], pid, ns, entries);
      Attach(before, kept[hs[n]], pid, ns)
  }

  /** Attaching `hs` is attaching all but the last, then the last. */
  lemma AttachAllSnoc(kept: map<Hash, Record>, hs: seq<Hash>, pid: string, ns: string, entries: Listing)
    requires 0 < |hs| && forall i :: 0 <= i < |hs| ==> hs[i] in kept
    requires AttachAll(kept, hs, pid, ns, entries).Ok?
    ensures var n := |hs| - 1;
      && (forall i :: 0 <= i < n ==> hs[..n][i] in kept)
      && AttachAll(kept, hs[..n], pid, ns, entries).Ok?
      && AttachAll(kept, hs, pid, ns, entries) ==
           Attach(AttachAll(kept, hs[..n], pid, ns, entries).value, kept[hs[n]], pid, ns)
  {
    var n := |hs| - 1;
    assert forall i :: 0 <= i < n ==> hs[..n][i] == hs[i];
  }

  /** An entry the inference-only alignments add is the other side of one
      of them, attached because one of its authorities was already listed
      when its turn came. */
  lemma {:induction false} AttachAllJustified(kept: map<Hash, Record>, hs: seq<Hash>, pid: string, ns: string,
                                              entries: Listing, k: string)
    requires forall i :: 0 <= i < |hs| ==> hs[i] in kept
    requires AttachAll(kept, hs, pid, ns, entries).Ok?
    requires k in AttachAll(kept, hs, pid, ns, entries).value && k !in entries
    ensures exists i :: (0 <= i < |hs| && AttachAll(kept, hs[..i], pid, ns, entries).Ok?
      && kept[hs[i]].AuthoritySet() * AttachAll(kept, hs[..i], pid, ns, entries).value.Keys != {}
      && OtherPid(kept[hs[i]], pid) == Ok(k))
    decreases |hs|
  {
    var n := |hs| - 1;
    AttachAllSnoc(kept, hs, pid, ns, entries);
    var before := AttachAll(kept, hs[..n], pid, ns, entries).value;
    if k in before {
      AttachAllJustified(kept, hs[..n], pid, ns, entries, k);
      var i :| 0 <= i < |hs[..n]| && AttachAll(kept, hs[..n][..i], pid, ns, entries).Ok?
        && kept[hs[..n][i]].AuthoritySet() * AttachAll(kept, hs[..n][..i], pid, ns, entries).value.Keys != {}
        && OtherPid(kept[hs[..n][i]], pid) == Ok(k);
      assert hs[..n][..i] == hs[..i] && hs[..n][i] == hs[i];
    } else {
      assert AttachAll(kept, hs, pid, ns, entries).value != before;
      assert OtherPid(kept[hs[n]], pid) == Ok(k);
    }
  }

  /** Everything the filing loop put in the buckets is a kept alignment. */
  ghost predicate Stored(kept: map<Hash, Record>, b: Buckets)
  {
    && (forall pid, i :: 0 <= i < |Bucket(b.byPid, pid)| ==> Bucket(b.byPid, pid)[i] in kept)
    && (forall pid, i :: 0 <= i < |Bucket(b.inferenceOnly, pid)| ==> Bucket(b.inferenceOnly, pid)[i] in kept)
  }

  /** The listing of place `pid`: its categorised alignments, then the
      inference-only alignments that attach. */
  function PlaceListing(kept: map<Hash, Record>, b: Buckets, pid: string, ns: string): (r: Result<Listing>)
    requires Stored(kept, b)
    ensures r.Err? ==> r.error == IndexError
    ensures r.Ok? ==> forall i :: 0 <= i < |Bucket(b.byPid, pid)| ==>
      OtherPid(kept[Bucket(b.byPid, pid)[i]], pid).Ok? && OtherPid(kept[Bucket(b.byPid, pid)[i]], pid).value in r.value
  {
    var described :- DescribeAll(kept, Bucket(b.byPid, pid), pid, ns);
    DescribeAllKeys(kept, Bucket(b.byPid, pid), pid, ns);
    AttachAll(kept, Bucket(b.inferenceOnly, pid), pid, ns, described)
  }

  // ---------------------------------------------------------------------
  // The report
  // ---------------------------------------------------------------------

  /** The listings of `pids`, in that order. */
  function ListPlaces(kept: map<Hash, Record>, b: Buckets, ns: string, pids: seq<string>): (r: Result<seq<(string, Listing)>>)
    requires Stored(kept, b)
    ensures r.Err? ==> r.error == IndexError
    ensures r.Ok? ==> |r.value| == |pids|
    ensures r.Ok? ==> forall i :: 0 <= i < |pids| ==>
      r.value[i].0 == pids[i] && PlaceListing(kept, b, pids[i], ns) == Ok(r.value[i].1)
  {
    if |pids| == 0 then Ok([])
    else
      var first :- PlaceListing(kept, b, pids[0], ns);
      var rest :- ListPlaces(kept, b, ns, pids[1..]);
      Ok([(pids[0], first)] + rest)
  }

  /** The filing loop's bookkeeping is ready for the report. */
  ghost predicate Reportable(kept: map<Hash, Record>, b: Buckets)
  {
    Stored(kept, b) && Ranged(b) && Listed(b)
  }

  /** Category `c` of the report: the places whose lowest category is `c`,
      ranked, each with its listing. */
  function Section(kept: map<Hash, Record>, b: Buckets, ns: string, c: nat): (r: Result<seq<(string, Listing)>>)
    requires Reportable(kept, b)
    ensures r.Err? ==> r.error == IndexError
  {
    ListPlaces(kept, b, ns, Rank(b, Members(b, c, b.pids)))
  }

  /** The report maps each category to its ranked places. */
  type Report = map<nat, seq<(string, Listing)>>

  /** The loop over categories `k` to 8, building each category's section
      with `section`; it stops at the first section that fails. */
  function SectionsFrom(section: nat -> Result<seq<(string, Listing)>>, k: nat): (r: Result<Report>)
    requires k <= HighestCategory + 1
    ensures r.Err? ==> exists c :: k <= c <= HighestCategory && section(c) == Err(r.error)
    ensures r.Ok? ==> forall c :: c in r.value <==> k <= c <= HighestCategory
    ensures r.Ok? ==> forall c :: c in r.value ==> section(c) == Ok(r.value[c])
    decreases HighestCategory + 1 - k
  {
    if k > HighestCategory then Ok(map[])
    else
      var here :- section(k);
      var rest :- SectionsFrom(section, k + 1);
      Ok(rest[k := here])
  }

  /** The sections for categories `k` to 8. */
  function Sections(kept: map<Hash, Record>, b: Buckets, ns: string, k: nat): (r: Result<Report>)
    requires Reportable(kept, b) && LowestCategory <= k <= HighestCategory + 1
    ensures r.Err? ==> r.error == IndexError
    ensures r.Ok? ==> forall c :: c in r.value <==> k <= c <= HighestCategory
    ensures r.Ok? ==> forall c :: c in r.value ==> Section(kept, b, ns, c) == Ok(r.value[c])
  {
    SectionsFrom((c: nat) => Section(kept, b, ns, c), k)
  }

  /** What the filing loop leaves is ready for the report. */
  lemma FiledReportable(kept: map<Hash, Record>, order: seq<Hash>, ns: string, b: Buckets)
    requires forall i :: 0 <= i < |order| ==> order[i] in kept
    requires Filed(a => PrimaryPid(a, ns), KindOf, kept, order, b)
    ensures Reportable(kept, b)
  {
    var home: Home := a => PrimaryPid(a, ns);
    forall pid | pid in b.categories
      ensures forall c :: c in b.categories[pid] ==> LowestCategory <= c <= HighestCategory
    {
      assert Cats(b, pid) == Reached(home, KindOf, kept, order, pid);
    }
    forall pid, i | 0 <= i < |Bucket(b.byPid, pid)|
      ensures Bucket(b.byPid, pid)[i] in kept
    {
      var x := Bucket(b.byPid, pid)[i];
      assert x in Bucket(b.byPid, pid);
      assert x in order;
      var j :| 0 <= j < |order| && order[j] == x;
    }
    forall pid, i | 0 <= i < |Bucket(b.inferenceOnly, pid)|
      ensures Bucket(b.inferenceOnly, pid)[i] in kept
    {
      var x := Bucket(b.inferenceOnly, pid)[i];
      assert x in Bucket(b.inferenceOnly, pid);
      assert x in order;
      var j :| 0 <= j < |order| && order[j] == x;
    }
  }

  /** The script's `main` from the filtering on: the report for primary
      namespace `ns`, or IndexError when an alignment lacks a primary id, an
      other id or an other namespace. */
  function Prioritise(records: seq<Record>, ns: string): (r: Result<Report>)
    ensures r.Err? ==> r.error == IndexError
    ensures r.Ok? ==> forall c :: c in r.value <==> LowestCategory <= c <= HighestCategory
  {
    var kept := Keep(records, ns);
    var order := KeptOrder(records, ns);
    var b :- Categorise(kept, order, ns);
    FiledReportable(kept, order, ns, b);
    Sections(kept, b, ns, LowestCategory)
  }

  /** A place is listed under category `c` exactly when `c` is the lowest
      category it reached. */
  lemma SectionPlaces(kept: map<Hash, Record>, b: Buckets, ns: string, c: nat, pid: string)
    requires Reportable(kept, b) && Section(kept, b, ns, c).Ok?
    ensures (exists i :: 0 <= i < |Section(kept, b, ns, c).value| && Section(kept, b, ns, c).value[i].0 == pid)
      <==> pid in b.categories && Lowest(b.categories[pid]) == c
  {
    var members := Members(b, c, b.pids);
    var ranked := Rank(b, members);
    var r := Section(kept, b, ns, c).value;
    assert pid in ranked <==> pid in members by {
      assert pid in ranked <==> pid in multiset(ranked);
      assert pid in members <==> pid in multiset(members);
    }
    if pid in ranked {
      var i :| 0 <= i < |ranked| && ranked[i] == pid;
      assert r[i].0 == pid;
    }
  }

  /** Within a category, places come in descending number of categorised
      alignments. */
  lemma SectionRanked(kept: map<Hash, Record>, b: Buckets, ns: string, c: nat)
    requires Reportable(kept, b) && Section(kept, b, ns, c).Ok?
    ensures forall i, j :: 0 <= i < j < |Section(kept, b, ns, c).value| ==>
      Count(b, Section(kept, b, ns, c).value[i].0) >= Count(b, Section(kept, b, ns, c).value[j].0)
  {
    var ranked := Rank(b, Members(b, c, b.pids));
    var r := Section(kept, b, ns, c).value;
    assert forall i :: 0 <= i < |r| ==> r[i].0 == ranked[i];
  }

  /** A listed place's listing has an entry for the other side of every
      alignment categorised under it. */
  lemma SectionComplete(kept: map<Hash, Record>, b: Buckets, ns: string, c: nat, i: nat)
    requires Reportable(kept, b) && Section(kept, b, ns, c).Ok? && i < |Section(kept, b, ns, c).value|
    ensures var (pid, listing) := Section(kept, b, ns, c).value[i];
      forall k :: 0 <= k < |Bucket(b.byPid, pid)| ==>
        OtherPid(kept[Bucket(b.byPid, pid)[k]], pid).Ok? && OtherPid(kept[Bucket(b.byPid, pid)[k]], pid).value in listing
  {
    var ranked := Rank(b, Members(b, c, b.pids));
    assert PlaceListing(kept, b, ranked[i], ns) == Ok(Section(kept, b, ns, c).value[i].1);
  }

  /** End to end: a place appears under category `c` of the report exactly
      when `c` is the lowest category its kept alignments reach. */
  lemma PrioritisePlaces(records: seq<Record>, ns: string, c: nat, pid: string)
    requires Prioritise(records, ns).Ok? && c in Prioritise(records, ns).value
    ensures var reached := Reached(a => PrimaryPid(a, ns), KindOf, Keep(records, ns), KeptOrder(records, ns), pid);
      && (forall x :: x in reached ==> LowestCategory <= x <= HighestCategory)
      && ((exists i :: 0 <= i < |Prioritise(records, ns).value[c]| && Prioritise(records, ns).value[c][i].0 == pid)
          <==> reached != {} && Lowest(reached) == c)
  {
    var kept := Keep(records, ns);
    var order := KeptOrder(records, ns);
    var home: Home := a => PrimaryPid(a, ns);
    var b := Categorise(kept, order, ns).value;
    FiledReportable(kept, order, ns, b);
    var report := Sections(kept, b, ns, LowestCategory).value;
    assert Prioritise(records, ns).value == report;
    assert Section(kept, b, ns, c) == Ok(report[c]);
    SectionPlaces(kept, b, ns, c, pid);
    assert Cats(b, pid) == Reached(home, KindOf, kept, order, pid);
  }
}
