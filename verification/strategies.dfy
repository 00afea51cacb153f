/** The alignment strategies of `Aligner` in `src/pleiades_aligner/aligner.py`:
    the assertion pass, the proximity pass, inference over a bridge id, and
    the `align` dispatch. Each strategy computes its drafts from the state it
    starts from and registers them in order; this is the Python behaviour,
    because the places, the categories and the snapshotted alignment sets it
    reads do not change while it registers.
 */
module Strategies {
  import opened Wrappers
  import opened Strings
  import opened Alignments
  import opened Engine

  /** The parts of an ingested place the strategies read: its local id, the
      qualified ids it asserts, and its geometric bin (`None` or `""` is a
      place without a bin). */
  datatype Place = Place(id: string, alignments: seq<string>, bin: Option<string>)

  /** An ingested data set: its namespace and its places. */
  datatype Dataset = Dataset(namespace: string, places: seq<Place>)

  /** The ingesters of an `Aligner`, in dictionary order: key and data set. */
  type Sources = seq<(string, Dataset)>

  /** `":".join((namespace, id))`. */
  function Qualify(ns: string, id: string): string
  {
    ns + ":" + id
  }

  /** Concatenation of a sequence of sequences. */
  function Concat<T>(ss: seq<seq<T>>): seq<T>
  {
    if |ss| == 0 then [] else ss[0] + Concat(ss[1..])
  }

  lemma {:induction false} ConcatMember<T>(ss: seq<seq<T>>, x: T)
    ensures x in Concat(ss) <==> exists i :: 0 <= i < |ss| && x in ss[i]
  {
    if |ss| > 0 {
      ConcatMember(ss[1..], x);
      assert forall i :: 1 <= i < |ss| ==> ss[i] == ss[1..][i - 1];
    }
  }

  lemma ConcatTwo<T>(a: seq<T>, b: seq<T>)
    ensures Concat([a, b]) == a + b
  {
    assert [a, b][1..] == [b];
    assert [b][1..] == [];
    assert Concat([b]) == b + Concat([]);
    assert b + [] == b;
  }

  /** Empty the bucket of mode `m`, as the assertion and proximity passes do
      before they run. */
  function ResetMode(st: State, m: Mode): State
  {
    st.(byMode := st.byMode[m := {}])
  }

  /** Emptying a mode bucket keeps the state valid. */
  lemma ResetValid(st: State, m: Mode)
    requires Valid(st)
    ensures Valid(ResetMode(st, m))
    ensures ResetMode(st, m).alignments == st.alignments
  {
    var r := ResetMode(st, m);
    ModeInAll(m);
    SameStoreOk(st, r);
    SameComplete(st, r);
    ResetModeSound(st, m);
  }

  lemma SameStoreOk(st: State, r: State)
    requires StoreOk(st) && r.alignments == st.alignments
    ensures StoreOk(r)
  {
  }

  lemma SameComplete(st: State, r: State)
    requires Complete(st) && r.alignments == st.alignments && r.byFullId == st.byFullId
    requires r.byIdNamespace == st.byIdNamespace && r.byAuthorityNamespace == st.byAuthorityNamespace
    ensures Complete(r)
  {
  }

  lemma ResetModeSound(st: State, m: Mode)
    requires Sound(st)
    ensures Sound(ResetMode(st, m))
  {
    var r := ResetMode(st, m);
    forall m', h | m' in r.byMode && h in r.byMode[m']
      ensures h in r.alignments && m' in r.alignments[h].modes
    {
      assert m' != m;
    }
  }

  // ---------------------------------------------------------------------
  // Assertion pass

  /** Every (namespace key, place) pair, in ingester and place order. */
  function AssertionEntries(sources: Sources): seq<(string, Place)>
  {
    Concat(seq(|sources|, i requires 0 <= i < |sources| =>
      seq(|sources[i].1.places|, j requires 0 <= j < |sources[i].1.places| =>
        (sources[i].0, sources[i].1.places[j]))))
  }

  lemma AssertionEntriesMember(sources: Sources, ns: string, p: Place)
    ensures (ns, p) in AssertionEntries(sources) <==>
      exists i :: 0 <= i < |sources| && sources[i].0 == ns && p in sources[i].1.places
  {
    var ss := seq(|sources|, i requires 0 <= i < |sources| =>
      seq(|sources[i].1.places|, j requires 0 <= j < |sources[i].1.places| =>
        (sources[i].0, sources[i].1.places[j])));
    ConcatMember(ss, (ns, p));
    if exists i :: 0 <= i < |sources| && sources[i].0 == ns && p in sources[i].1.places {
      var i :| 0 <= i < |sources| && sources[i].0 == ns && p in sources[i].1.places;
      var j :| 0 <= j < |sources[i].1.places| && sources[i].1.places[j] == p;
      assert ss[i][j] == (ns, p);
    }
  }

  /** The draft the assertion pass builds for place `p` of namespace `ns`
      asserting `target`: mode assertion, authority the place's qualified
      id. */
  function AssertionDraft(ns: string, p: Place, target: string): Alignment
  {
    Make(Qualify(ns, p.id), target, Assertion, Some(Qualify(ns, p.id)), None)
  }

  function PlaceAssertions(ns: string, p: Place): seq<Alignment>
  {
    seq(|p.alignments|, k requires 0 <= k < |p.alignments| => AssertionDraft(ns, p, p.alignments[k]))
  }

  /** The drafts of `_align_assertions`, in registration order. */
  function AssertionDrafts(sources: Sources): seq<Alignment>
  {
    var entries := AssertionEntries(sources);
    Concat(seq(|entries|, i requires 0 <= i < |entries| => PlaceAssertions(entries[i].0, entries[i].1)))
  }

  /** A draft of the assertion pass is exactly one place's assertion of one
      of its targets. */
  lemma AssertionDraftsMember(sources: Sources, d: Alignment)
    ensures d in AssertionDrafts(sources) <==>
      exists ns, p, t :: (ns, p) in AssertionEntries(sources) && t in p.alignments && d == AssertionDraft(ns, p, t)
  {
    if d in AssertionDrafts(sources) {
      AssertionDraftsFrom(sources, d);
    }
    if exists ns, p, t :: (ns, p) in AssertionEntries(sources) && t in p.alignments && d == AssertionDraft(ns, p, t) {
      var ns, p, t :| (ns, p) in AssertionEntries(sources) && t in p.alignments && d == AssertionDraft(ns, p, t);
      AssertionDraftsHas(sources, ns, p, t);
    }
  }

  lemma AssertionDraftsFrom(sources: Sources, d: Alignment)
    requires d in AssertionDrafts(sources)
    ensures exists ns, p, t :: (ns, p) in AssertionEntries(sources) && t in p.alignments && d == AssertionDraft(ns, p, t)
  {
    var entries := AssertionEntries(sources);
    var ss := seq(|entries|, i requires 0 <= i < |entries| => PlaceAssertions(entries[i].0, entries[i].1));
    ConcatMember(ss, d);
    var i :| 0 <= i < |ss| && d in ss[i];
    var k :| 0 <= k < |entries[i].1.alignments| && ss[i][k] == d;
    assert d == AssertionDraft(entries[i].0, entries[i].1, entries[i].1.alignments[k]);
  }

  lemma AssertionDraftsHas(sources: Sources, ns: string, p: Place, t: string)
    requires (ns, p) in AssertionEntries(sources) && t in p.alignments
    ensures AssertionDraft(ns, p, t) in AssertionDrafts(sources)
  {
    var entries := AssertionEntries(sources);
    var ss := seq(|entries|, i requires 0 <= i < |entries| => PlaceAssertions(entries[i].0, entries[i].1));
    var i :| 0 <= i < |entries| && entries[i] == (ns, p);
    var k :| 0 <= k < |p.alignments| && p.alignments[k] == t;
    assert ss[i][k] == AssertionDraft(ns, p, t);
    ConcatMember(ss, AssertionDraft(ns, p, t));
  }

  /** `_align_assertions`: empty the assertion bucket, then register every
      asserted pair. */
  function AlignAssertions(st: State, sources: Sources): State
  {
    RegisterAll(ResetMode(st, Assertion), AssertionDrafts(sources))
  }

  lemma AssertionDraftsOk(sources: Sources)
    ensures forall i :: 0 <= i < |AssertionDrafts(sources)| ==>
      DraftOk(AssertionDrafts(sources)[i]) && AssertionDrafts(sources)[i].modes == {Assertion}
  {
    var drafts := AssertionDrafts(sources);
    forall i | 0 <= i < |drafts|
      ensures DraftOk(drafts[i]) && drafts[i].modes == {Assertion}
    {
      AssertionDraftsMember(sources, drafts[i]);
    }
  }

  /** The assertion pass keeps the state valid. */
  lemma AlignAssertionsValid(st: State, sources: Sources)
    requires Valid(st)
    ensures Valid(AlignAssertions(st, sources))
  {
    ResetValid(st, Assertion);
    AssertionDraftsOk(sources);
    RegisterAllValid(ResetMode(st, Assertion), AssertionDrafts(sources));
  }

  /** After the assertion pass the assertion bucket holds exactly the
      identities of the asserted pairs. */
  lemma AlignAssertionsBucket(st: State, sources: Sources)
    ensures Assertion in AlignAssertions(st, sources).byMode
    ensures AlignAssertions(st, sources).byMode[Assertion] == Identities(AssertionDrafts(sources))
  {
    AssertionDraftsOk(sources);
    RegisterAllModeBucket(ResetMode(st, Assertion), AssertionDrafts(sources), Assertion);
  }

  /** Every place's assertion of every target is stored after the pass, in
      assertion mode and with the place's qualified id among its
      authorities. */
  lemma AlignAssertionsRegistered(st: State, sources: Sources, ns: string, p: Place, t: string)
    requires (ns, p) in AssertionEntries(sources) && t in p.alignments
    ensures var r := AlignAssertions(st, sources);
            var key := Identity(AssertionDraft(ns, p, t));
            && key in r.alignments
            && Assertion in r.alignments[key].modes
            && Qualify(ns, p.id) in r.alignments[key].authorities
  {
    var drafts := AssertionDrafts(sources);
    var d := AssertionDraft(ns, p, t);
    var key := Identity(d);
    var st0 := ResetMode(st, Assertion);
    AssertionDraftsMember(sources, d);
    var i :| 0 <= i < |drafts| && drafts[i] == d;
    RegisterAllKeys(st0, drafts);
    assert key in Identities(drafts);
    RegisterAllAuthorities(st0, drafts, key);
    RegisterAllModes(st0, drafts, key);
    DraftAuthoritiesMember(drafts, key, Qualify(ns, p.id));
    DraftModesMember(drafts, key, Assertion);
  }

  /** The sources of two places, in two namespaces, that assert each
      other. */
  function Reciprocal(nsA: string, idA: string, nsB: string, idB: string): Sources
  {
    [(nsA, Dataset(nsA, [Place(idA, [Qualify(nsB, idB)], None)])),
     (nsB, Dataset(nsB, [Place(idB, [Qualify(nsA, idA)], None)]))]
  }

  lemma ReciprocalDrafts(nsA: string, idA: string, nsB: string, idB: string)
    ensures var qa := Qualify(nsA, idA);
            var qb := Qualify(nsB, idB);
            AssertionDrafts(Reciprocal(nsA, idA, nsB, idB)) ==
              [Make(qa, qb, Assertion, Some(qa), None), Make(qb, qa, Assertion, Some(qb), None)]
  {
    var sources := Reciprocal(nsA, idA, nsB, idB);
    var pa := sources[0].1.places[0];
    var pb := sources[1].1.places[0];
    var ss := seq(|sources|, i requires 0 <= i < |sources| =>
      seq(|sources[i].1.places|, j requires 0 <= j < |sources[i].1.places| =>
        (sources[i].0, sources[i].1.places[j])));
    assert |ss| == 2;
    assert |ss[0]| == 1 && |ss[1]| == 1;
    assert ss[0][0] == (nsA, pa);
    assert ss[1][0] == (nsB, pb);
    assert ss[0] == [(nsA, pa)];
    assert ss[1] == [(nsB, pb)];
    assert ss == [[(nsA, pa)], [(nsB, pb)]];
    ConcatTwo([(nsA, pa)], [(nsB, pb)]);
    var entries := [(nsA, pa), (nsB, pb)];
    assert AssertionEntries(sources) == entries;
    var ds := seq(|entries|, i requires 0 <= i < |entries| => PlaceAssertions(entries[i].0, entries[i].1));
    var a1 := AssertionDraft(nsA, pa, pa.alignments[0]);
    var a2 := AssertionDraft(nsB, pb, pb.alignments[0]);
    assert ds[0] == PlaceAssertions(nsA, pa) && ds[1] == PlaceAssertions(nsB, pb);
    assert |ds[0]| == 1 && ds[0][0] == a1;
    assert |ds[1]| == 1 && ds[1][0] == a2;
    assert |ds| == 2;
    assert ds[0] == [a1];
    assert ds[1] == [a2];
    assert ds == [[a1], [a2]];
    ConcatTwo([a1], [a2]);
  }

  /** Two places that assert each other give one alignment carrying both
      places as authorities. */
  lemma AssertionsReciprocal(nsA: string, idA: string, nsB: string, idB: string)
    ensures var qa := Qualify(nsA, idA);
            var qb := Qualify(nsB, idB);
            var r := AlignAssertions(Init(), Reciprocal(nsA, idA, nsB, idB));
            && |r.alignments| == 1
            && r.alignments.Values == {Make(qa, qb, Assertion, Some(qa), None).(
                 authorities := {qa, qb}, authorityNamespaces := Namespaces({qa, qb}))}
  {
    var qa := Qualify(nsA, idA);
    var qb := Qualify(nsB, idB);
    var d1 := Make(qa, qb, Assertion, Some(qa), None);
    var d2 := Make(qb, qa, Assertion, Some(qb), None);
    ReciprocalDrafts(nsA, idA, nsB, idB);
    IdentityIgnoresEvidence(qa, qb, Assertion, Some(qa), None, Assertion, Some(qb), None);
    var st0 := ResetMode(Init(), Assertion);
    assert st0.alignments == map[];
    assert AlignAssertions(Init(), Reciprocal(nsA, idA, nsB, idB)) == RegisterAll(st0, [d1, d2]);
    RegisterPair(st0, d1, d2);
    var merged := Merge(d1, d2);
    MergeReciprocal(qa, qb);
    SingletonMap(Identity(d1), merged);
  }

  lemma MergeReciprocal(qa: string, qb: string)
    requires qa != "" && qb != ""
    ensures var d1 := Make(qa, qb, Assertion, Some(qa), None);
            var d2 := Make(qb, qa, Assertion, Some(qb), None);
            Merge(d1, d2) == d1.(authorities := {qa, qb}, authorityNamespaces := Namespaces({qa, qb}))
  {
    var d1 := Make(qa, qb, Assertion, Some(qa), None);
    var d2 := Make(qb, qa, Assertion, Some(qb), None);
    assert d1.authorities == {qa} && d2.authorities == {qb};
    assert d1.authorityNamespaces == Namespaces({qa});
    NamespacesUnion({qa}, {qb});
    assert {qa} + {qb} == {qa, qb};
    assert d1.modes + d2.modes == d1.modes;
  }

  lemma SingletonMap<K, V>(k: K, v: V)
    ensures |map[][k := v]| == 1 && map[][k := v].Values == {v}
  {
    var m := map[][k := v];
    assert m.Keys == {k};
  }

  /** Registering two drafts of one new identity stores their merge. */
  lemma RegisterPair(st: State, d1: Alignment, d2: Alignment)
    requires Identity(d1) == Identity(d2) && Identity(d1) !in st.alignments
    ensures RegisterAll(st, [d1, d2]).alignments == st.alignments[Identity(d1) := Merge(d1, d2)]
  {
    var st1 := Register(st, d1);
    assert RegisterAll(st, [d1, d2]) == Register(st1, d2) by {
      assert [d1, d2][..1] == [d1];
      assert RegisterAll(st, [d1]) == st1 by {
        assert [d1][..0] == [];
      }
    }
    var key := Identity(d1);
    assert st1.alignments == st.alignments[key := d1];
    assert Stored(st1, d2) == Merge(d1, d2);
    assert Register(st1, d2).alignments == st1.alignments[key := Merge(d1, d2)];
    MapOverwrite(st.alignments, key, d1, Merge(d1, d2));
  }

  lemma MapOverwrite<K, V>(m: map<K, V>, k: K, v1: V, v2: V)
    ensures m[k := v1][k := v2] == m[k := v2]
  {
  }

  // ---------------------------------------------------------------------
  // Proximity pass

  /** A configured proximity category: its name (the proximity label), the
      place attribute to measure, and the distance threshold. */
  datatype Category = Category(name: string, attr: string, threshold: real)

  /** The distance between the named attribute of two places. Geometry is
      not modelled: the distance is a parameter. */
  type Distance = (Place, Place, string) -> real

  ghost predicate Symmetric(dist: Distance)
  {
    forall a, b, attr :: dist(a, b, attr) == dist(b, a, attr)
  }

  /** The position of the first category, in configuration order, whose
      threshold the pair's distance does not exceed. */
  function FirstMatch(cats: seq<Category>, dist: Distance, a: Place, b: Place): (r: Option<nat>)
    ensures r.Some? ==> r.value < |cats| && dist(a, b, cats[r.value].attr) <= cats[r.value].threshold
    ensures r.Some? ==> forall j :: 0 <= j < r.value ==> dist(a, b, cats[j].attr) > cats[j].threshold
    ensures r.None? ==> forall j :: 0 <= j < |cats| ==> dist(a, b, cats[j].attr) > cats[j].threshold
  {
    if |cats| == 0 then None
    else if dist(a, b, cats[0].attr) <= cats[0].threshold then Some(0)
    else
      match FirstMatch(cats[1..], dist, a, b)
      case None => None
      case Some(k) => Some(k + 1)
  }

  /** With a symmetric distance the matching category does not depend on
      the order of the pair. */
  lemma {:induction false} FirstMatchSymmetric(cats: seq<Category>, dist: Distance, a: Place, b: Place)
    requires Symmetric(dist)
    ensures FirstMatch(cats, dist, a, b) == FirstMatch(cats, dist, b, a)
  {
    if |cats| > 0 {
      FirstMatchSymmetric(cats[1..], dist, a, b);
    }
  }

  /** The draft for the ordered pair `x`, `y` of (namespace, place): none
      for two places of one namespace or when no category matches;
      otherwise a proximity alignment labelled with the first matching
      category and without authority. */
  function PairDraft(cats: seq<Category>, dist: Distance, x: (string, Place), y: (string, Place)): (r: Option<Alignment>)
    ensures r.None? <==> x.0 == y.0 || FirstMatch(cats, dist, x.1, y.1).None?
    ensures r.Some? ==>
      && DraftOk(r.value)
      && r.value.Ids() == {Qualify(x.0, x.1.id), Qualify(y.0, y.1.id)}
      && r.value.modes == {Proximity}
      && r.value.authorities == {}
      && r.value.proximity == AsSet(Some(cats[FirstMatch(cats, dist, x.1, y.1).value].name))
  {
    if x.0 == y.0 then None
    else
      match FirstMatch(cats, dist, x.1, y.1)
      case None => None
      case Some(k) =>
        Some(Make(Qualify(x.0, x.1.id), Qualify(y.0, y.1.id), Proximity, None, Some(cats[k].name)))
  }

  /** With a symmetric distance both orders of a pair give the same draft. */
  lemma PairDraftSymmetric(cats: seq<Category>, dist: Distance, x: (string, Place), y: (string, Place))
    requires Symmetric(dist)
    ensures PairDraft(cats, dist, x, y) == PairDraft(cats, dist, y, x)
  {
    FirstMatchSymmetric(cats, dist, x.1, y.1);
    var q1 := Qualify(x.0, x.1.id);
    var q2 := Qualify(y.0, y.1.id);
    OrderedSymmetric(q1, q2);
    assert {q1, q2} == {q2, q1};
  }

  /** Every (namespace, place) pair with a truthy bin, in ingester and place
      order. The namespace is the data set's own. */
  function ProximityEntries(sources: Sources): seq<(string, Place)>
  {
    WithBin(Concat(seq(|sources|, i requires 0 <= i < |sources| =>
      seq(|sources[i].1.places|, j requires 0 <= j < |sources[i].1.places| =>
        (sources[i].1.namespace, sources[i].1.places[j])))))
  }

  function WithBin(entries: seq<(string, Place)>): (r: seq<(string, Place)>)
    ensures forall e :: e in r <==> e in entries && Truthy(e.1.bin)
  {
    if |entries| == 0 then []
    else (if Truthy(entries[0].1.bin) then [entries[0]] else []) + WithBin(entries[1..])
  }

  lemma ProximityEntriesMember(sources: Sources, ns: string, p: Place)
    ensures (ns, p) in ProximityEntries(sources) <==>
      Truthy(p.bin) && exists i :: 0 <= i < |sources| && sources[i].1.namespace == ns && p in sources[i].1.places
  {
    var ss := seq(|sources|, i requires 0 <= i < |sources| =>
      seq(|sources[i].1.places|, j requires 0 <= j < |sources[i].1.places| =>
        (sources[i].1.namespace, sources[i].1.places[j])));
    ConcatMember(ss, (ns, p));
    if exists i :: 0 <= i < |sources| && sources[i].1.namespace == ns && p in sources[i].1.places {
      var i :| 0 <= i < |sources| && sources[i].1.namespace == ns && p in sources[i].1.places;
      var j :| 0 <= j < |sources[i].1.places| && sources[i].1.places[j] == p;
      assert ss[i][j] == (ns, p);
    }
  }

  /** The distinct bins of the entries, in order of first appearance (the
      key order of the `bins` dictionary). */
  function BinKeys(entries: seq<(string, Place)>): (r: seq<Option<string>>)
    ensures forall k :: k in r <==> exists e :: e in entries && e.1.bin == k
    ensures forall i, j :: 0 <= i < j < |r| ==> r[i] != r[j]
  {
    if |entries| == 0 then []
    else
      var init := entries[..|entries| - 1];
      var last := entries[|entries| - 1];
      var keys := BinKeys(init);
      assert forall e :: e in entries <==> e in init || e == last;
      if last.1.bin in keys then keys else keys + [last.1.bin]
  }

  /** The entries in bin `key`, in order. */
  function Members(entries: seq<(string, Place)>, key: Option<string>): (r: seq<(string, Place)>)
    ensures forall e :: e in r <==> e in entries && e.1.bin == key
  {
    if |entries| == 0 then []
    else (if entries[0].1.bin == key then [entries[0]] else []) + Members(entries[1..], key)
  }

  function OptionSeq<T>(o: Option<T>): seq<T>
  {
    if o.Some? then [o.value] else []
  }

  /** The drafts pairing `x` with each member, in order. */
  function RowDrafts(cats: seq<Category>, dist: Distance, x: (string, Place), members: seq<(string, Place)>): seq<Alignment>
  {
    Concat(seq(|members|, j requires 0 <= j < |members| => OptionSeq(PairDraft(cats, dist, x, members[j]))))
  }

  lemma RowDraftsMember(cats: seq<Category>, dist: Distance, x: (string, Place), members: seq<(string, Place)>, d: Alignment)
    ensures d in RowDrafts(cats, dist, x, members) <==>
      exists y :: y in members && PairDraft(cats, dist, x, y) == Some(d)
  {
    var cells := seq(|members|, j requires 0 <= j < |members| => OptionSeq(PairDraft(cats, dist, x, members[j])));
    ConcatMember(cells, d);
    if d in RowDrafts(cats, dist, x, members) {
      var j :| 0 <= j < |cells| && d in cells[j];
      assert PairDraft(cats, dist, x, members[j]) == Some(d);
    }
    if exists y :: y in members && PairDraft(cats, dist, x, y) == Some(d) {
      var y :| y in members && PairDraft(cats, dist, x, y) == Some(d);
      var j :| 0 <= j < |members| && members[j] == y;
      assert cells[j] == [d];
    }
  }

  /** The drafts of one bin: every ordered pair of its members. */
  function BinDrafts(cats: seq<Category>, dist: Distance, members: seq<(string, Place)>): seq<Alignment>
  {
    Concat(seq(|members|, i requires 0 <= i < |members| => RowDrafts(cats, dist, members[i], members)))
  }

  lemma BinDraftsMember(cats: seq<Category>, dist: Distance, members: seq<(string, Place)>, d: Alignment)
    ensures d in BinDrafts(cats, dist, members) <==>
      exists x, y :: x in members && y in members && PairDraft(cats, dist, x, y) == Some(d)
  {
    var rows := seq(|members|, i requires 0 <= i < |members| => RowDrafts(cats, dist, members[i], members));
    ConcatMember(rows, d);
    if d in BinDrafts(cats, dist, members) {
      var i :| 0 <= i < |rows| && d in rows[i];
      RowDraftsMember(cats, dist, members[i], members, d);
    }
    if exists x, y :: x in members && y in members && PairDraft(cats, dist, x, y) == Some(d) {
      var x, y :| x in members && y in members && PairDraft(cats, dist, x, y) == Some(d);
      var i :| 0 <= i < |members| && members[i] == x;
      RowDraftsMember(cats, dist, x, members, d);
      assert d in rows[i];
    }
  }

  /** The drafts of `_align_proximity`, bin by bin. */
  function ProximityDrafts(sources: Sources, cats: seq<Category>, dist: Distance): seq<Alignment>
  {
    var entries := ProximityEntries(sources);
    var keys := BinKeys(entries);
    Concat(seq(|keys|, k requires 0 <= k < |keys| => BinDrafts(cats, dist, Members(entries, keys[k]))))
  }

  /** A draft of the proximity pass is exactly the draft of an ordered pair
      of binned places that share a bin. */
  lemma ProximityDraftsMember(sources: Sources, cats: seq<Category>, dist: Distance, d: Alignment)
    ensures var entries := ProximityEntries(sources);
            d in ProximityDrafts(sources, cats, dist) <==>
              exists x, y :: x in entries && y in entries && x.1.bin == y.1.bin && PairDraft(cats, dist, x, y) == Some(d)
  {
    var entries := ProximityEntries(sources);
    var keys := BinKeys(entries);
    var bins := seq(|keys|, k requires 0 <= k < |keys| => BinDrafts(cats, dist, Members(entries, keys[k])));
    ConcatMember(bins, d);
    if d in ProximityDrafts(sources, cats, dist) {
      var k :| 0 <= k < |bins| && d in bins[k];
      BinDraftsMember(cats, dist, Members(entries, keys[k]), d);
    }
    if exists x, y :: x in entries && y in entries && x.1.bin == y.1.bin && PairDraft(cats, dist, x, y) == Some(d) {
      var x, y :| x in entries && y in entries && x.1.bin == y.1.bin && PairDraft(cats, dist, x, y) == Some(d);
      assert x.1.bin in keys;
      var k :| 0 <= k < |keys| && keys[k] == x.1.bin;
      BinDraftsMember(cats, dist, Members(entries, keys[k]), d);
      assert d in bins[k];
    }
  }

  /** `_align_proximity`: empty the proximity bucket, then register the
      drafts of every bin. */
  function AlignProximity(st: State, sources: Sources, cats: seq<Category>, dist: Distance): State
  {
    RegisterAll(ResetMode(st, Proximity), ProximityDrafts(sources, cats, dist))
  }

  lemma ProximityDraftsOk(sources: Sources, cats: seq<Category>, dist: Distance)
    ensures var drafts := ProximityDrafts(sources, cats, dist);
            forall i :: 0 <= i < |drafts| ==> DraftOk(drafts[i]) && drafts[i].modes == {Proximity}
  {
    var drafts := ProximityDrafts(sources, cats, dist);
    forall i | 0 <= i < |drafts|
      ensures DraftOk(drafts[i]) && drafts[i].modes == {Proximity}
    {
      ProximityDraftsMember(sources, cats, dist, drafts[i]);
    }
  }

  /** The proximity pass keeps the state valid. */
  lemma AlignProximityValid(st: State, sources: Sources, cats: seq<Category>, dist: Distance)
    requires Valid(st)
    ensures Valid(AlignProximity(st, sources, cats, dist))
  {
    ResetValid(st, Proximity);
    ProximityDraftsOk(sources, cats, dist);
    RegisterAllValid(ResetMode(st, Proximity), ProximityDrafts(sources, cats, dist));
  }

  /** After the proximity pass the proximity bucket holds exactly the
      identities of the matched cross-namespace pairs. */
  lemma AlignProximityBucket(st: State, sources: Sources, cats: seq<Category>, dist: Distance)
    ensures Proximity in AlignProximity(st, sources, cats, dist).byMode
    ensures AlignProximity(st, sources, cats, dist).byMode[Proximity] == Identities(ProximityDrafts(sources, cats, dist))
  {
    ProximityDraftsOk(sources, cats, dist);
    RegisterAllModeBucket(ResetMode(st, Proximity), ProximityDrafts(sources, cats, dist), Proximity);
  }

  /** Every matched pair of binned places from different namespaces in one
      bin is stored after the pass, in proximity mode. */
  lemma AlignProximityRegistered(st: State, sources: Sources, cats: seq<Category>, dist: Distance,
                                 x: (string, Place), y: (string, Place))
    requires x in ProximityEntries(sources) && y in ProximityEntries(sources) && x.1.bin == y.1.bin
    requires x.0 != y.0 && FirstMatch(cats, dist, x.1, y.1).Some?
    ensures var r := AlignProximity(st, sources, cats, dist);
            var key := Identity(PairDraft(cats, dist, x, y).value);
            && key in r.alignments
            && Proximity in r.alignments[key].modes
  {
    var drafts := ProximityDrafts(sources, cats, dist);
    var d := PairDraft(cats, dist, x, y).value;
    var key := Identity(d);
    var st0 := ResetMode(st, Proximity);
    ProximityDraftsMember(sources, cats, dist, d);
    var i :| 0 <= i < |drafts| && drafts[i] == d;
    RegisterAllKeys(st0, drafts);
    assert key in Identities(drafts);
    RegisterAllModes(st0, drafts, key);
    DraftModesMember(drafts, key, Proximity);
  }

  // ---------------------------------------------------------------------
  // Inference

  /** `[f for f in ids if f.startswith(prefix) == want][0]`: the first id
      that starts (or, with `want` false, does not start) with `prefix`; an
      `IndexError` when there is none. */
  function FirstId(ids: seq<string>, prefix: string, want: bool): (r: Result<string>)
    ensures r.Ok? ==> r.value in ids && StartsWith(r.value, prefix) == want
    ensures r.Ok? && StartsWith(ids[0], prefix) == want ==> r.value == ids[0]
    ensures r.Err? <==> forall i :: 0 <= i < |ids| ==> StartsWith(ids[i], prefix) != want
    ensures r.Err? ==> r.error == IndexError
  {
    if |ids| == 0 then Err(IndexError)
    else if StartsWith(ids[0], prefix) == want then Ok(ids[0])
    else
      var r := FirstId(ids[1..], prefix, want);
      assert forall i :: 1 <= i < |ids| ==> ids[i] == ids[1..][i - 1];
      r
  }

  /** The stored alignments named by `order`, in that order. `order` stands
      for Python's iteration order over the stored alignments. */
  function StoredIn(st: State, order: seq<string>): (r: seq<Alignment>)
    ensures forall a :: a in r <==> exists h :: h in order && h in st.alignments && st.alignments[h] == a
  {
    if |order| == 0 then []
    else
      var rest := StoredIn(st, order[1..]);
      assert forall h :: h in order <==> h == order[0] || h in order[1..];
      (if order[0] in st.alignments then [st.alignments[order[0]]] else []) + rest
  }

  function Filter(xs: seq<Alignment>, keep: Alignment -> bool): (r: seq<Alignment>)
    ensures forall a :: a in r <==> a in xs && keep(a)
  {
    if |xs| == 0 then []
    else (if keep(xs[0]) then [xs[0]] else []) + Filter(xs[1..], keep)
  }

  /** The alignments of `xs` that have `id` among their ids. */
  function Touching(xs: seq<Alignment>, id: string): (r: seq<Alignment>)
    ensures forall a :: a in r <==> a in xs && id in a.Ids()
  {
    Filter(xs, (a: Alignment) => id in a.Ids())
  }

  /** A primary alignment: it has an id in the primary and one in the aligned
      namespace. */
  predicate IsPrimary(a: Alignment, primaryNs: string, alignedNs: string)
  {
    primaryNs in a.idNamespaces && alignedNs in a.idNamespaces
  }

  /** A candidate alignment: an assertion with an id in the inference and
      one in the aligned namespace. */
  predicate IsCandidate(a: Alignment, inferenceNs: string, alignedNs: string)
  {
    inferenceNs in a.idNamespaces && Assertion in a.modes && alignedNs in a.idNamespaces
  }

  /** The inferred alignment between `primaryId` and `inferredId` on the
      authority of the bridge id. */
  function InferenceDraft(primaryId: string, inferredId: string, bridge: string): (a: Alignment)
    ensures DraftOk(a) && a.Ids() == {primaryId, inferredId} && a.modes == {Inference}
    ensures a.authorities == (if bridge == "" then {} else {bridge})
  {
    Make(primaryId, inferredId, Inference, Some(bridge), None)
  }

  /** The drafts pairing `primaryId` with the inference-namespace end of each
      alignment of `cs`. */
  function Inferred(primaryId: string, cs: seq<Alignment>, bridge: string, inferenceNs: string): (r: Result<seq<Alignment>>)
    ensures r.Ok? <==> forall c :: c in cs ==> FirstId(c.AlignedIds(), inferenceNs, true).Ok?
    ensures r.Err? ==> r.error == IndexError
    ensures r.Ok? ==> forall d :: d in r.value <==>
      exists c :: c in cs && d == InferenceDraft(primaryId, FirstId(c.AlignedIds(), inferenceNs, true).value, bridge)
  {
    if |cs| == 0 then Ok([])
    else
      var iid := FirstId(cs[0].AlignedIds(), inferenceNs, true);
      var rest := Inferred(primaryId, cs[1..], bridge, inferenceNs);
      assert forall c :: c in cs <==> c == cs[0] || c in cs[1..];
      if iid.Err? then Err(iid.error)
      else if rest.Err? then Err(rest.error)
      else Ok([InferenceDraft(primaryId, iid.value, bridge)] + rest.value)
  }

  /** For each primary alignment of `ps`, its primary-namespace end paired
      with every alignment of `cs`. */
  function Pairings(ps: seq<Alignment>, cs: seq<Alignment>, bridge: string, primaryNs: string, inferenceNs: string): (r: Result<seq<Alignment>>)
    ensures r.Ok? <==>
      (|ps| > 0 ==> forall c :: c in cs ==> FirstId(c.AlignedIds(), inferenceNs, true).Ok?)
      && forall p :: p in ps ==> FirstId(p.AlignedIds(), primaryNs, true).Ok?
    ensures r.Err? ==> r.error == IndexError
    ensures r.Ok? ==> forall d :: d in r.value <==>
      exists p, c :: p in ps && c in cs &&
        d == InferenceDraft(FirstId(p.AlignedIds(), primaryNs, true).value,
                            FirstId(c.AlignedIds(), inferenceNs, true).value, bridge)
  {
    if |ps| == 0 then Ok([])
    else
      var pid := FirstId(ps[0].AlignedIds(), primaryNs, true);
      assert forall p :: p in ps <==> p == ps[0] || p in ps[1..];
      if pid.Err? then Err(pid.error)
      else
        var row := Inferred(pid.value, cs, bridge, inferenceNs);
        var rest := Pairings(ps[1..], cs, bridge, primaryNs, inferenceNs);
        if row.Err? then Err(row.error)
        else if rest.Err? then Err(rest.error)
        else Ok(row.value + rest.value)
  }

  /** The bridge of a candidate: its first id outside the inference
      namespace prefix. */
  function Bridge(c: Alignment, inferenceNs: string): Result<string>
  {
    FirstId(c.AlignedIds(), inferenceNs, false)
  }

  /** What one candidate contributes: its bridge joins the primary
      alignments and the candidates that contain it; a bridge no primary
      alignment contains yields nothing. */
  function Joined(c0: Alignment, all: seq<Alignment>, prims: seq<Alignment>,
                  primaryNs: string, inferenceNs: string): (r: Result<seq<Alignment>>)
    ensures r.Err? ==> r.error == IndexError
  {
    var bridge :- Bridge(c0, inferenceNs);
    var these := Touching(prims, bridge);
    if |these| == 0 then Ok([]) else Pairings(these, Touching(all, bridge), bridge, primaryNs, inferenceNs)
  }

  /** `d` joins the primary end of `p` to the inference end of `c` on the
      authority of `bridge`. */
  predicate Joins(d: Alignment, p: Alignment, c: Alignment, bridge: string, primaryNs: string, inferenceNs: string)
  {
    bridge in p.Ids() && bridge in c.Ids() &&
    FirstId(p.AlignedIds(), primaryNs, true).Ok? && FirstId(c.AlignedIds(), inferenceNs, true).Ok? &&
    d == InferenceDraft(FirstId(p.AlignedIds(), primaryNs, true).value, FirstId(c.AlignedIds(), inferenceNs, true).value, bridge)
  }

  /** A candidate contributes exactly the joins of a primary and a
      candidate alignment that share its bridge. */
  lemma JoinedMember(c0: Alignment, all: seq<Alignment>, prims: seq<Alignment>,
                     primaryNs: string, inferenceNs: string, d: Alignment)
    requires Joined(c0, all, prims, primaryNs, inferenceNs).Ok?
    ensures Bridge(c0, inferenceNs).Ok?
    ensures d in Joined(c0, all, prims, primaryNs, inferenceNs).value <==>
      exists p, c :: p in prims && c in all && Joins(d, p, c, Bridge(c0, inferenceNs).value, primaryNs, inferenceNs)
  {
    var b := Bridge(c0, inferenceNs).value;
    var these := Touching(prims, b);
    var those := Touching(all, b);
    if |these| == 0 {
      forall p, c | p in prims && c in all
        ensures !Joins(d, p, c, b, primaryNs, inferenceNs)
      {
        assert p !in these;
      }
    } else {
      var r := Pairings(these, those, b, primaryNs, inferenceNs);
      assert r.Ok?;
      if d in r.value {
        var p, c :| p in these && c in those &&
          d == InferenceDraft(FirstId(p.AlignedIds(), primaryNs, true).value,
                              FirstId(c.AlignedIds(), inferenceNs, true).value, b);
        assert Joins(d, p, c, b, primaryNs, inferenceNs);
      }
      if exists p, c :: p in prims && c in all && Joins(d, p, c, b, primaryNs, inferenceNs) {
        var p, c :| p in prims && c in all && Joins(d, p, c, b, primaryNs, inferenceNs);
        assert p in these && c in those;
      }
    }
  }

  /** The loop over the candidates of `align_by_inference`. */
  function CandidateDrafts(cands: seq<Alignment>, all: seq<Alignment>, prims: seq<Alignment>,
                           primaryNs: string, inferenceNs: string): (r: Result<seq<Alignment>>)
    ensures r.Ok? <==> forall c0 :: c0 in cands ==> Joined(c0, all, prims, primaryNs, inferenceNs).Ok?
    ensures r.Err? ==> r.error == IndexError
    ensures r.Ok? ==> forall d :: d in r.value <==>
      exists c0 :: c0 in cands && d in Joined(c0, all, prims, primaryNs, inferenceNs).value
  {
    if |cands| == 0 then Ok([])
    else
      assert forall c :: c in cands <==> c == cands[0] || c in cands[1..];
      var own :- Joined(cands[0], all, prims, primaryNs, inferenceNs);
      var rest :- CandidateDrafts(cands[1..], all, prims, primaryNs, inferenceNs);
      Ok(own + rest)
  }

  /** The drafts of the candidate loop are exactly the joins of a primary
      and a candidate alignment through the bridge of some candidate. */
  lemma CandidateDraftsMember(cands: seq<Alignment>, all: seq<Alignment>, prims: seq<Alignment>,
                              primaryNs: string, inferenceNs: string, d: Alignment)
    requires CandidateDrafts(cands, all, prims, primaryNs, inferenceNs).Ok?
    ensures d in CandidateDrafts(cands, all, prims, primaryNs, inferenceNs).value <==>
      exists c0, p, c :: c0 in cands && Bridge(c0, inferenceNs).Ok? && p in prims && c in all &&
        Joins(d, p, c, Bridge(c0, inferenceNs).value, primaryNs, inferenceNs)
  {
    forall c0 | c0 in cands
      ensures Bridge(c0, inferenceNs).Ok?
      ensures d in Joined(c0, all, prims, primaryNs, inferenceNs).value <==>
        exists p, c :: p in prims && c in all && Joins(d, p, c, Bridge(c0, inferenceNs).value, primaryNs, inferenceNs)
    {
      JoinedMember(c0, all, prims, primaryNs, inferenceNs, d);
    }
  }

  /** Under well-formedness an alignment with an id in namespace `ns` has an
      id starting with `ns`, so the primary and inferred ends exist. */
  lemma EndExists(a: Alignment, ns: string)
    requires WellFormed(a) && ns in a.idNamespaces
    ensures FirstId(a.AlignedIds(), ns, true).Ok?
  {
    var id :| id in a.Ids() && NamespaceOf(id) == ns;
    assert id in a.AlignedIds();
  }

  /** A candidate has a bridge when the inference namespace is colon-free
      and not a prefix of the aligned namespace: its aligned-namespace id
      then does not start with the inference namespace. */
  lemma BridgeExists(a: Alignment, inferenceNs: string, alignedNs: string)
    requires WellFormed(a) && alignedNs in a.idNamespaces
    requires ':' !in inferenceNs && !StartsWith(alignedNs, inferenceNs)
    ensures Bridge(a, inferenceNs).Ok?
  {
    var id :| id in a.Ids() && NamespaceOf(id) == alignedNs;
    assert id in a.AlignedIds();
  }

  /** A bridge can fail to exist: with inference namespace `geo` and
      aligned namespace `geonames` every id of a candidate starts with
      `geo`, and `align_by_inference` stops with an `IndexError`. */
  lemma BridgeMissing()
    ensures Bridge(Make("geo:1", "geonames:2", Assertion, None, None), "geo").Err?
  {
    var a := Make("geo:1", "geonames:2", Assertion, None, None);
    assert StartsWith("geo:1", "geo") && StartsWith("geonames:2", "geo");
    assert forall i :: 0 <= i < |a.AlignedIds()| ==> StartsWith(a.AlignedIds()[i], "geo");
  }

  /** `order` enumerates the stored identities: Python's iteration order. */
  ghost predicate Enumerates(st: State, order: seq<string>)
  {
    forall h :: h in order <==> h in st.alignments
  }

  /** The stored primary and candidate alignments. */
  function Primaries(st: State, primaryNs: string, alignedNs: string, order: seq<string>): (r: seq<Alignment>)
    requires Enumerates(st, order)
    ensures forall a :: a in r <==> a in st.alignments.Values && IsPrimary(a, primaryNs, alignedNs)
  {
    Filter(StoredIn(st, order), (a: Alignment) => IsPrimary(a, primaryNs, alignedNs))
  }

  function Candidates(st: State, inferenceNs: string, alignedNs: string, order: seq<string>): (r: seq<Alignment>)
    requires Enumerates(st, order)
    ensures forall a :: a in r <==> a in st.alignments.Values && IsCandidate(a, inferenceNs, alignedNs)
  {
    Filter(StoredIn(st, order), (a: Alignment) => IsCandidate(a, inferenceNs, alignedNs))
  }

  /** The primary and candidate alignments of `align_by_inference`, and
      the drafts of its candidate loop; a namespace with no alignment
      raises `KeyError`, the primary one first. */
  function InferenceDrafts(st: State, primaryNs: string, alignedNs: string, inferenceNs: string,
                           order: seq<string>): (r: Result<seq<Alignment>>)
    requires Valid(st) && Enumerates(st, order)
    ensures r.Err? && r.error.KeyError? ==>
      r.error == KeyError(primaryNs) || r.error == KeyError(inferenceNs)
  {
    var _ :- AlignmentsByIdNamespace(st, primaryNs);
    var _ :- AlignmentsByIdNamespace(st, inferenceNs);
    var cands := Candidates(st, inferenceNs, alignedNs, order);
    CandidateDrafts(cands, cands, Primaries(st, primaryNs, alignedNs, order), primaryNs, inferenceNs)
  }

  /** The inference drafts fail exactly when a namespace has no alignment
      (a `KeyError`) or when some candidate has no bridge (an
      `IndexError`). */
  lemma InferenceDraftsError(st: State, primaryNs: string, alignedNs: string, inferenceNs: string, order: seq<string>)
    requires Valid(st) && Enumerates(st, order)
    ensures var r := InferenceDrafts(st, primaryNs, alignedNs, inferenceNs, order);
      && (AlignmentsByIdNamespace(st, primaryNs).Err? ==> r == Err(KeyError(primaryNs)))
      && (AlignmentsByIdNamespace(st, primaryNs).Ok? && AlignmentsByIdNamespace(st, inferenceNs).Err? ==>
            r == Err(KeyError(inferenceNs)))
      && (AlignmentsByIdNamespace(st, primaryNs).Ok? && AlignmentsByIdNamespace(st, inferenceNs).Ok? ==>
            (r.Ok? <==> forall c :: c in st.alignments.Values && IsCandidate(c, inferenceNs, alignedNs) ==>
                          Bridge(c, inferenceNs).Ok?))
  {
    if AlignmentsByIdNamespace(st, primaryNs).Ok? && AlignmentsByIdNamespace(st, inferenceNs).Ok? {
      var prims := Primaries(st, primaryNs, alignedNs, order);
      var cands := Candidates(st, inferenceNs, alignedNs, order);
      assert InferenceDrafts(st, primaryNs, alignedNs, inferenceNs, order) == CandidateDrafts(cands, cands, prims, primaryNs, inferenceNs);
      CandidateDraftsOk(cands, prims, primaryNs, inferenceNs);
    }
  }

  /** Over well-formed primary and candidate alignments the candidate loop
      fails exactly when some candidate has no bridge. */
  lemma CandidateDraftsOk(cands: seq<Alignment>, prims: seq<Alignment>, primaryNs: string, inferenceNs: string)
    requires forall c :: c in cands ==> WellFormed(c) && inferenceNs in c.idNamespaces
    requires forall p :: p in prims ==> WellFormed(p) && primaryNs in p.idNamespaces
    ensures CandidateDrafts(cands, cands, prims, primaryNs, inferenceNs).Ok? <==>
      forall c :: c in cands ==> Bridge(c, inferenceNs).Ok?
  {
    forall c0 | c0 in cands && Bridge(c0, inferenceNs).Ok?
      ensures Joined(c0, cands, prims, primaryNs, inferenceNs).Ok?
    {
      JoinedOk(c0, cands, prims, primaryNs, inferenceNs);
    }
  }

  /** A candidate with a bridge contributes without error. */
  lemma JoinedOk(c0: Alignment, cands: seq<Alignment>, prims: seq<Alignment>, primaryNs: string, inferenceNs: string)
    requires forall c :: c in cands ==> WellFormed(c) && inferenceNs in c.idNamespaces
    requires forall p :: p in prims ==> WellFormed(p) && primaryNs in p.idNamespaces
    requires Bridge(c0, inferenceNs).Ok?
    ensures Joined(c0, cands, prims, primaryNs, inferenceNs).Ok?
  {
    {
      var b := Bridge(c0, inferenceNs).value;
      var these := Touching(prims, b);
      var those := Touching(cands, b);
      forall p | p in these ensures FirstId(p.AlignedIds(), primaryNs, true).Ok? {
        EndExists(p, primaryNs);
      }
      forall c | c in those ensures FirstId(c.AlignedIds(), inferenceNs, true).Ok? {
        EndExists(c, inferenceNs);
      }
    }
  }

  /** The drafts of inference are exactly the joins, through the bridge of
      a stored candidate, of a stored primary alignment and a stored
      candidate that both contain the bridge. */
  lemma InferenceDraftsMember(st: State, primaryNs: string, alignedNs: string, inferenceNs: string,
                              order: seq<string>, d: Alignment)
    requires Valid(st) && Enumerates(st, order)
    requires InferenceDrafts(st, primaryNs, alignedNs, inferenceNs, order).Ok?
    ensures d in InferenceDrafts(st, primaryNs, alignedNs, inferenceNs, order).value <==>
      exists c0, p, c :: c0 in Candidates(st, inferenceNs, alignedNs, order) && Bridge(c0, inferenceNs).Ok? &&
        p in Primaries(st, primaryNs, alignedNs, order) && c in Candidates(st, inferenceNs, alignedNs, order) &&
        Joins(d, p, c, Bridge(c0, inferenceNs).value, primaryNs, inferenceNs)
  {
    var prims := Primaries(st, primaryNs, alignedNs, order);
    var cands := Candidates(st, inferenceNs, alignedNs, order);
    assert InferenceDrafts(st, primaryNs, alignedNs, inferenceNs, order) == CandidateDrafts(cands, cands, prims, primaryNs, inferenceNs);
    CandidateDraftsMember(cands, cands, prims, primaryNs, inferenceNs, d);
  }

  /** Every inference draft is a well-formed alignment in inference mode
      whose single authority is its bridge. */
  lemma InferenceDraftsOk(st: State, primaryNs: string, alignedNs: string, inferenceNs: string, order: seq<string>)
    requires Valid(st) && Enumerates(st, order)
    requires InferenceDrafts(st, primaryNs, alignedNs, inferenceNs, order).Ok?
    ensures var drafts := InferenceDrafts(st, primaryNs, alignedNs, inferenceNs, order).value;
      forall i :: 0 <= i < |drafts| ==> DraftOk(drafts[i]) && drafts[i].modes == {Inference}
  {
    var drafts := InferenceDrafts(st, primaryNs, alignedNs, inferenceNs, order).value;
    forall i | 0 <= i < |drafts|
      ensures DraftOk(drafts[i]) && drafts[i].modes == {Inference}
    {
      InferenceDraftsMember(st, primaryNs, alignedNs, inferenceNs, order, drafts[i]);
    }
  }

  /** `align_by_inference`: register the inferred alignments. Unlike the
      other two passes it does not clear the inference bucket first. */
  function AlignByInference(st: State, primaryNs: string, alignedNs: string, inferenceNs: string,
                            order: seq<string>): Result<State>
    requires Valid(st) && Enumerates(st, order)
  {
    var drafts :- InferenceDrafts(st, primaryNs, alignedNs, inferenceNs, order);
    Ok(RegisterAll(st, drafts))
  }

  /** Inference keeps the state valid, and the inference bucket grows by
      exactly the identities of the drafts. */
  lemma AlignByInferenceValid(st: State, primaryNs: string, alignedNs: string, inferenceNs: string, order: seq<string>)
    requires Valid(st) && Enumerates(st, order)
    requires AlignByInference(st, primaryNs, alignedNs, inferenceNs, order).Ok?
    ensures var r := AlignByInference(st, primaryNs, alignedNs, inferenceNs, order).value;
      var drafts := InferenceDrafts(st, primaryNs, alignedNs, inferenceNs, order).value;
      && Valid(r)
      && r.byMode[Inference] == st.byMode[Inference] + Identities(drafts)
  {
    var drafts := InferenceDrafts(st, primaryNs, alignedNs, inferenceNs, order).value;
    InferenceDraftsOk(st, primaryNs, alignedNs, inferenceNs, order);
    RegisterAllValid(st, drafts);
    ModeInAll(Inference);
    RegisterAllModeBucket(st, drafts, Inference);
  }

  /** With distinct, colon-free namespaces that are not prefixes of one
      another present in the store, inference cannot fail. */
  lemma AlignByInferenceOk(st: State, primaryNs: string, alignedNs: string, inferenceNs: string, order: seq<string>)
    requires Valid(st) && Enumerates(st, order)
    requires exists h :: h in st.alignments && primaryNs in st.alignments[h].idNamespaces
    requires exists h :: h in st.alignments && inferenceNs in st.alignments[h].idNamespaces
    requires ':' !in inferenceNs && !StartsWith(alignedNs, inferenceNs)
    ensures AlignByInference(st, primaryNs, alignedNs, inferenceNs, order).Ok?
  {
    InferenceDraftsError(st, primaryNs, alignedNs, inferenceNs, order);
    forall c | c in st.alignments.Values && IsCandidate(c, inferenceNs, alignedNs)
      ensures Bridge(c, inferenceNs).Ok?
    {
      BridgeExists(c, inferenceNs, alignedNs);
    }
  }

  /** Every join found by inference is stored afterwards, in inference mode
      and with the bridge among its authorities. */
  lemma AlignByInferenceRegistered(st: State, primaryNs: string, alignedNs: string, inferenceNs: string,
                                   order: seq<string>, c0: Alignment, p: Alignment, c: Alignment, d: Alignment)
    requires Valid(st) && Enumerates(st, order)
    requires AlignByInference(st, primaryNs, alignedNs, inferenceNs, order).Ok?
    requires c0 in st.alignments.Values && IsCandidate(c0, inferenceNs, alignedNs)
    requires p in st.alignments.Values && IsPrimary(p, primaryNs, alignedNs)
    requires c in st.alignments.Values && IsCandidate(c, inferenceNs, alignedNs)
    requires Bridge(c0, inferenceNs).Ok? && Joins(d, p, c, Bridge(c0, inferenceNs).value, primaryNs, inferenceNs)
    requires Bridge(c0, inferenceNs).value != ""
    ensures var r := AlignByInference(st, primaryNs, alignedNs, inferenceNs, order).value;
      && Identity(d) in r.alignments
      && Inference in r.alignments[Identity(d)].modes
      && Bridge(c0, inferenceNs).value in r.alignments[Identity(d)].authorities
  {
    var drafts := InferenceDrafts(st, primaryNs, alignedNs, inferenceNs, order).value;
    assert c0 in Candidates(st, inferenceNs, alignedNs, order);
    assert p in Primaries(st, primaryNs, alignedNs, order);
    assert c in Candidates(st, inferenceNs, alignedNs, order);
    InferenceDraftsMember(st, primaryNs, alignedNs, inferenceNs, order, d);
    assert d in drafts;
    var b := Bridge(c0, inferenceNs).value;
    assert d == InferenceDraft(FirstId(p.AlignedIds(), primaryNs, true).value, FirstId(c.AlignedIds(), inferenceNs, true).value, b);
    assert AlignByInference(st, primaryNs, alignedNs, inferenceNs, order) == Ok(RegisterAll(st, drafts));
    DraftRegistered(st, drafts, d, Inference, Bridge(c0, inferenceNs).value);
  }

  /** A draft registered in a batch leaves its modes and authorities on the
      stored record. */
  lemma DraftRegistered(st: State, drafts: seq<Alignment>, d: Alignment, m: Mode, x: string)
    requires d in drafts && m in d.modes && x in d.authorities
    ensures var r := RegisterAll(st, drafts);
      && Identity(d) in r.alignments
      && m in r.alignments[Identity(d)].modes
      && x in r.alignments[Identity(d)].authorities
  {
    var key := Identity(d);
    var i :| 0 <= i < |drafts| && drafts[i] == d;
    RegisterAllKeys(st, drafts);
    assert key in Identities(drafts);
    RegisterAllEvidence(st, drafts, key);
    DraftModesMember(drafts, key, m);
    DraftAuthoritiesMember(drafts, key, x);
  }

  // ---------------------------------------------------------------------
  // Dispatch

  /** The passes `align` can reach: the method `_align_<name>`. */
  datatype Pass = AssertionPass | ProximityPass

  /** Looking up `_align_<name>`: a missing method is an `AttributeError`.
      Inference is not among them; it has its own entry point. */
  function ParsePass(name: string): (r: Result<Pass>)
    ensures r == Ok(AssertionPass) <==> name == "assertions"
    ensures r == Ok(ProximityPass) <==> name == "proximity"
    ensures r.Err? <==> name != "assertions" && name != "proximity"
    ensures r.Err? ==> r.error == AttributeError("_align_" + name)
  {
    if name == "assertions" then Ok(AssertionPass)
    else if name == "proximity" then Ok(ProximityPass)
    else Err(AttributeError("_align_" + name))
  }

  /** One pass with the keyword arguments of `align`: the proximity pass
      needs `proximity_categories` and is a `TypeError` without it. */
  function RunPass(st: State, pass: Pass, sources: Sources, cats: Option<seq<Category>>, dist: Distance): (r: Result<State>)
    ensures r.Err? <==> pass == ProximityPass && cats.None?
    ensures r.Err? ==> r.error == TypeError
  {
    match pass
    case AssertionPass => Ok(AlignAssertions(st, sources))
    case ProximityPass =>
      if cats.None? then Err(TypeError) else Ok(AlignProximity(st, sources, cats.value, dist))
  }

  /** `align(modes, **kwargs)`: run the named passes in order, stopping at
      the first failure. */
  function Align(st: State, names: seq<string>, sources: Sources, cats: Option<seq<Category>>, dist: Distance): Result<State>
    decreases |names|
  {
    if |names| == 0 then Ok(st)
    else
      var pass :- ParsePass(names[0]);
      var next :- RunPass(st, pass, sources, cats, dist);
      Align(next, names[1..], sources, cats, dist)
  }

  /** `align` succeeds exactly when every name is a pass and the proximity
      pass, if named, has its categories. */
  lemma {:induction false} AlignOk(st: State, names: seq<string>, sources: Sources, cats: Option<seq<Category>>, dist: Distance)
    ensures Align(st, names, sources, cats, dist).Ok? <==>
      (forall i :: 0 <= i < |names| ==> names[i] == "assertions" || names[i] == "proximity")
      && (cats.None? ==> "proximity" !in names)
    decreases |names|
  {
    if |names| > 0 {
      var pass := ParsePass(names[0]);
      assert forall i :: 1 <= i < |names| ==> names[i] == names[1..][i - 1];
      assert "proximity" in names <==> names[0] == "proximity" || "proximity" in names[1..];
      if pass.Ok? {
        var next := RunPass(st, pass.value, sources, cats, dist);
        if next.Ok? {
          AlignOk(next.value, names[1..], sources, cats, dist);
        }
      }
    }
  }

  /** Every run of `align` keeps the state valid. */
  lemma {:induction false} AlignValid(st: State, names: seq<string>, sources: Sources, cats: Option<seq<Category>>, dist: Distance)
    requires Valid(st)
    requires Align(st, names, sources, cats, dist).Ok?
    ensures Valid(Align(st, names, sources, cats, dist).value)
    decreases |names|
  {
    if |names| > 0 {
      var pass := ParsePass(names[0]).value;
      var next := RunPass(st, pass, sources, cats, dist).value;
      match pass {
        case AssertionPass => AlignAssertionsValid(st, sources);
        case ProximityPass => AlignProximityValid(st, sources, cats.value, dist);
      }
      AlignValid(next, names[1..], sources, cats, dist);
    }
  }

  /** Running the assertion pass last leaves its bucket holding exactly the
      asserted pairs, whatever ran before. */
  lemma AlignAssertionsLast(st: State, names: seq<string>, sources: Sources, cats: Option<seq<Category>>, dist: Distance)
    requires Align(st, names, sources, cats, dist).Ok?
    ensures var r := Align(st, names + ["assertions"], sources, cats, dist);
      r.Ok? && Assertion in r.value.byMode && r.value.byMode[Assertion] == Identities(AssertionDrafts(sources))
  {
    AlignSnoc(st, names, "assertions", sources, cats, dist);
    AlignAssertionsBucket(Align(st, names, sources, cats, dist).value, sources);
  }

  /** Running one more name continues from the state the first names
      produced. */
  lemma {:induction false} AlignSnoc(st: State, names: seq<string>, name: string, sources: Sources, cats: Option<seq<Category>>, dist: Distance)
    requires Align(st, names, sources, cats, dist).Ok?
    ensures Align(st, names + [name], sources, cats, dist) == Align(Align(st, names, sources, cats, dist).value, [name], sources, cats, dist)
    decreases |names|
  {
    if |names| > 0 {
      var pass := ParsePass(names[0]).value;
      var next := RunPass(st, pass, sources, cats, dist).value;
      assert (names + [name])[0] == names[0];
      assert (names + [name])[1..] == names[1..] + [name];
      AlignSnoc(next, names[1..], name, sources, cats, dist);
    } else {
      assert names + [name] == [name];
    }
  }
}
