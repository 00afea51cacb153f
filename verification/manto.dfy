/** The MANTO review script: alignment groups keyed by MANTO id, the three
    concurrence checks run on each group, the work index that sorts the
    groups into review buckets, and the attachment of reviewers' notes.

    A group is the script's dictionary: the MANTO place's own names,
    alignments and feature types (absent when that place could not be
    loaded), one entry `group[ns][id]` per aligned record, an optional note
    and the three concurrence flags the checks set.
 */
module Manto {
  import opened Wrappers
  import opened Strings

  /** What a group records about one aligned record: the aligned place's
      alignments, names and feature types, each absent when that place could
      not be loaded. */
  datatype Target = Target(
    alignments: Option<set<string>>,
    names: Option<set<string>>,
    featureTypes: Option<set<string>>)

  /** A reviewer's note; `discuss` is absent when the note lacks the key. */
  datatype Note = Note(discuss: Option<bool>)

  datatype Group = Group(
    names: Option<set<string>>,
    alignments: Option<seq<string>>,
    featureTypes: Option<set<string>>,
    targets: map<string, map<string, Target>>,
    note: Option<Note>,
    reciprocal: Option<bool>,
    nameConcurrence: Option<bool>,
    typeConcurrence: Option<bool>)

  /** The namespace whose records the name and type checks compare with. */
  const Gazetteer := "pleiades"

  /** Unpacking `ns, id = qid.split(":")`: exactly one colon, else the
      unpacking raises ValueError. */
  function SplitPair(qid: string): (r: Result<(string, string)>)
    ensures r.Ok? <==> |Split(qid, ':')| == 2
    ensures r.Ok? ==> r.value.0 + ":" + r.value.1 == qid
    ensures r.Ok? ==> ':' !in r.value.0 && ':' !in r.value.1
    ensures r.Err? ==> r.error.ValueError?
  {
    var pieces := Split(qid, ':');
    if |pieces| == 2 then
      assert Join(pieces[1..], [':']) == pieces[1];
      Ok((pieces[0], pieces[1]))
    else Err(ValueError("unpack"))
  }

  /** Every colon-free namespace and id pair unpacks back to itself. */
  lemma SplitPairQualified(ns: string, id: string)
    requires ':' !in ns && ':' !in id
    ensures SplitPair(ns + ":" + id) == Ok((ns, id))
  {
    assert Join([ns, id], [':']) == ns + ":" + id by {
      assert Join([ns, id][1..], [':']) == id;
    }
    JoinSplit([ns, id], ':');
  }

  /** `group[ns][id]`, absent (a KeyError the checks catch) when either
      level is missing. */
  function Entry(g: Group, ns: string, id: string): (r: Option<Target>)
    ensures r.Some? <==> ns in g.targets && id in g.targets[ns]
    ensures r.Some? ==> r.value == g.targets[ns][id]
  {
    if ns in g.targets && id in g.targets[ns] then Some(g.targets[ns][id]) else None
  }

  // ---------------------------------------------------------------------
  // The scan shared by the three checks
  // ---------------------------------------------------------------------

  /** Every id of `qids` was looked at and passed over. */
  predicate AllPassed(qids: seq<string>, look: string -> Result<bool>)
  {
    forall j :: 0 <= j < |qids| ==> look(qids[j]) == Ok(false)
  }

  /** The loop of the checks: look at each aligned id in turn and stop at
      the first that settles the question, either a hit (`Ok(true)`) or an
      exception. The outcome is `Ok(false)` exactly when every id is passed
      over; otherwise it is the outcome of the first id not passed over. */
  function FirstHit(qids: seq<string>, look: string -> Result<bool>): (r: Result<bool>)
    ensures r == Ok(false) <==> AllPassed(qids, look)
    ensures r != Ok(false) ==>
      exists i :: 0 <= i < |qids| && AllPassed(qids[..i], look) && look(qids[i]) == r
    decreases |qids|
  {
    if |qids| == 0 then Ok(false)
    else
      var here := look(qids[0]);
      if here != Ok(false) then
        assert AllPassed(qids[..0], look);
        here
      else
        var rest := FirstHit(qids[1..], look);
        FirstHitStep(qids, look, rest);
        rest
  }

  lemma FirstHitStep(qids: seq<string>, look: string -> Result<bool>, rest: Result<bool>)
    requires |qids| > 0 && look(qids[0]) == Ok(false)
    requires rest == Ok(false) <==> AllPassed(qids[1..], look)
    requires rest != Ok(false) ==>
      exists i :: 0 <= i < |qids[1..]| && AllPassed(qids[1..][..i], look) && look(qids[1..][i]) == rest
    ensures rest == Ok(false) <==> AllPassed(qids, look)
    ensures rest != Ok(false) ==>
      exists i :: 0 <= i < |qids| && AllPassed(qids[..i], look) && look(qids[i]) == rest
  {
    if AllPassed(qids[1..], look) {
      assert forall j :: 0 < j < |qids| ==> qids[j] == qids[1..][j - 1];
    }
    if AllPassed(qids, look) {
      assert forall j :: 0 <= j < |qids| - 1 ==> qids[1..][j] == qids[j + 1];
    }
    if rest != Ok(false) {
      var i :| 0 <= i < |qids[1..]| && AllPassed(qids[1..][..i], look) && look(qids[1..][i]) == rest;
      assert qids[..i + 1] == [qids[0]] + qids[1..][..i];
      assert AllPassed(qids[..i + 1], look);
    }
  }

  // ---------------------------------------------------------------------
  // The three concurrence checks
  // ---------------------------------------------------------------------

  /** One aligned id for the reciprocity check: a hit when the aligned
      record's own alignments point back at `manto:<id>`. */
  function ReciprocalLook(g: Group, back: string, qid: string): Result<bool>
  {
    var p :- SplitPair(qid);
    var e := Entry(g, p.0, p.1);
    Ok(e.Some? && e.value.alignments.Some? && back in e.value.alignments.value)
  }

  /** The aligned record named by `qid` points back at `back`. */
  ghost predicate PointsBack(g: Group, back: string, qid: string)
  {
    exists ns, id :: SplitPair(qid) == Ok((ns, id)) && Entry(g, ns, id).Some?
      && Entry(g, ns, id).value.alignments.Some? && back in Entry(g, ns, id).value.alignments.value
  }

  /** `concurrence_reciprocal`: sets the `reciprocal` flag, and nothing
      else, to whether some aligned record points back at this MANTO id. */
  function ConcurrenceReciprocal(mantoId: string, g: Group): (r: Result<Group>)
    ensures g.alignments.None? ==> r == Err(KeyError("alignments"))
    ensures r.Err? ==> r.error == KeyError("alignments") || r.error.ValueError?
    ensures r.Ok? ==> r.value == g.(reciprocal := r.value.reciprocal) && r.value.reciprocal.Some?
  {
    if g.alignments.None? then Err(KeyError("alignments"))
    else
      var back := "manto:" + mantoId;
      var found :- FirstHit(g.alignments.value, qid => ReciprocalLook(g, back, qid));
      assert found || !found;
      Ok(g.(reciprocal := Some(found)))
  }

  /** Every aligned id of the group has the form `ns:id`. */
  predicate WellSplit(qids: seq<string>)
  {
    forall i :: 0 <= i < |qids| ==> SplitPair(qids[i]).Ok?
  }

  lemma ReciprocalLookMeans(g: Group, back: string, qid: string)
    requires SplitPair(qid).Ok?
    ensures ReciprocalLook(g, back, qid) == Ok(PointsBack(g, back, qid))
  {
    var p := SplitPair(qid).value;
    if ReciprocalLook(g, back, qid) == Ok(true) {
      assert SplitPair(qid) == Ok((p.0, p.1));
    }
  }

  /** With well-formed aligned ids the check succeeds, and the group is
      reciprocal exactly when some aligned record points back at
      `manto:<id>`. */
  lemma {:induction false} ReciprocalIff(mantoId: string, g: Group)
    requires g.alignments.Some? && WellSplit(g.alignments.value)
    ensures ConcurrenceReciprocal(mantoId, g).Ok?
    ensures ConcurrenceReciprocal(mantoId, g).value.reciprocal.value <==>
      exists i :: 0 <= i < |g.alignments.value| && PointsBack(g, "manto:" + mantoId, g.alignments.value[i])
  {
    var qids := g.alignments.value;
    var back := "manto:" + mantoId;
    var look := qid => ReciprocalLook(g, back, qid);
    forall i | 0 <= i < |qids|
      ensures look(qids[i]) == Ok(PointsBack(g, back, qids[i]))
    {
      ReciprocalLookMeans(g, back, qids[i]);
    }
    var r := FirstHit(qids, look);
    if r != Ok(false) {
      var i :| 0 <= i < |qids| && AllPassed(qids[..i], look) && look(qids[i]) == r;
      assert PointsBack(g, back, qids[i]);
    } else {
      assert forall i :: 0 <= i < |qids| ==> !PointsBack(g, back, qids[i]);
    }
  }

  /** A malformed aligned id reached before any hit makes the check raise
      ValueError. */
  lemma ReciprocalMalformed(mantoId: string, g: Group, i: nat)
    requires g.alignments.Some? && i < |g.alignments.value|
    requires AllPassed(g.alignments.value[..i], qid => ReciprocalLook(g, "manto:" + mantoId, qid))
    requires SplitPair(g.alignments.value[i]).Err?
    ensures ConcurrenceReciprocal(mantoId, g).Err?
    ensures ConcurrenceReciprocal(mantoId, g).error.ValueError?
  {
    var qids := g.alignments.value;
    var look := qid => ReciprocalLook(g, "manto:" + mantoId, qid);
    assert look(qids[i]).Err?;
    FirstHitPrefix(qids, look, i);
  }

  /** The scan stops at the first id not passed over. */
  lemma {:induction false} FirstHitPrefix(qids: seq<string>, look: string -> Result<bool>, i: nat)
    requires i < |qids| && AllPassed(qids[..i], look) && look(qids[i]) != Ok(false)
    ensures FirstHit(qids, look) == look(qids[i])
  {
    if i > 0 {
      assert qids[..i][0] == qids[0];
      var tail := qids[1..][..i - 1];
      forall j | 0 <= j < |tail|
        ensures look(tail[j]) == Ok(false)
      {
        assert tail[j] == qids[..i][j + 1];
      }
      FirstHitPrefix(qids[1..], look, i - 1);
    }
  }

  /** One aligned id for the name or type check: passed over unless it is
      a gazetteer record whose `pick`ed set was loaded and meets `mine`. */
  function OverlapLook(g: Group, mine: set<string>, pick: Target -> Option<set<string>>, qid: string): Result<bool>
  {
    var p :- SplitPair(qid);
    if p.0 != Gazetteer then Ok(false)
    else
      var e := Entry(g, p.0, p.1);
      Ok(e.Some? && pick(e.value).Some? && mine * pick(e.value).value != {})
  }

  /** The aligned record named by `qid` is a gazetteer record sharing an
      element of `mine` through `pick`. */
  ghost predicate Shares(g: Group, mine: set<string>, pick: Target -> Option<set<string>>, qid: string)
  {
    exists id, x :: SplitPair(qid) == Ok((Gazetteer, id)) && Entry(g, Gazetteer, id).Some?
      && pick(Entry(g, Gazetteer, id).value).Some?
      && x in mine && x in pick(Entry(g, Gazetteer, id).value).value
  }

  lemma OverlapLookMeans(g: Group, mine: set<string>, pick: Target -> Option<set<string>>, qid: string)
    requires SplitPair(qid).Ok?
    ensures OverlapLook(g, mine, pick, qid) == Ok(Shares(g, mine, pick, qid))
  {
    var p := SplitPair(qid).value;
    if Shares(g, mine, pick, qid) {
      var id, x :| SplitPair(qid) == Ok((Gazetteer, id)) && Entry(g, Gazetteer, id).Some?
        && pick(Entry(g, Gazetteer, id).value).Some?
        && x in mine && x in pick(Entry(g, Gazetteer, id).value).value;
      assert p == (Gazetteer, id);
      assert x in mine * pick(Entry(g, Gazetteer, id).value).value;
    }
    if OverlapLook(g, mine, pick, qid) == Ok(true) {
      var x :| x in mine * pick(Entry(g, p.0, p.1).value).value;
      assert SplitPair(qid) == Ok((Gazetteer, p.1));
    }
  }

  /** The scan for the name and type checks. */
  function Overlap(g: Group, mine: set<string>, pick: Target -> Option<set<string>>): (r: Result<bool>)
    requires g.alignments.Some?
    ensures r.Err? ==> r.error.ValueError?
  {
    FirstHit(g.alignments.value, qid => OverlapLook(g, mine, pick, qid))
  }

  /** With well-formed aligned ids the scan succeeds and finds a hit
      exactly when some aligned gazetteer record shares an element. */
  lemma {:induction false} OverlapIff(g: Group, mine: set<string>, pick: Target -> Option<set<string>>)
    requires g.alignments.Some? && WellSplit(g.alignments.value)
    ensures Overlap(g, mine, pick).Ok?
    ensures Overlap(g, mine, pick).value <==>
      exists i :: 0 <= i < |g.alignments.value| && Shares(g, mine, pick, g.alignments.value[i])
  {
    var qids := g.alignments.value;
    var look := qid => OverlapLook(g, mine, pick, qid);
    forall i | 0 <= i < |qids|
      ensures look(qids[i]) == Ok(Shares(g, mine, pick, qids[i]))
    {
      OverlapLookMeans(g, mine, pick, qids[i]);
    }
    var r := FirstHit(qids, look);
    if r != Ok(false) {
      var i :| 0 <= i < |qids| && AllPassed(qids[..i], look) && look(qids[i]) == r;
      assert Shares(g, mine, pick, qids[i]);
    } else {
      assert forall i :: 0 <= i < |qids| ==> !Shares(g, mine, pick, qids[i]);
    }
  }

  function PickNames(t: Target): Option<set<string>> { t.names }

  function PickTypes(t: Target): Option<set<string>> { t.featureTypes }

  /** `concurrence_names`: a group whose MANTO place has no names is left
      as it is; otherwise only `name_concurrence` is set. */
  function ConcurrenceNames(mantoId: string, g: Group): (r: Result<Group>)
    ensures g.names.None? ==> r == Err(KeyError("names"))
    ensures g.names == Some({}) ==> r == Ok(g)
    ensures g.names.Some? && g.names.value != {} && g.alignments.None? ==> r == Err(KeyError("alignments"))
    ensures r.Err? ==> r.error in {KeyError("names"), KeyError("alignments")} || r.error.ValueError?
    ensures r.Ok? && g.names != Some({}) ==>
      r.value == g.(nameConcurrence := r.value.nameConcurrence) && r.value.nameConcurrence.Some?
  {
    if g.names.None? then Err(KeyError("names"))
    else if g.names.value == {} then Ok(g)
    else if g.alignments.None? then Err(KeyError("alignments"))
    else
      var found :- Overlap(g, g.names.value, PickNames);
      Ok(g.(nameConcurrence := Some(found)))
  }

  /** With names and well-formed aligned ids, the group's names concur
      exactly when an aligned gazetteer record shares one of them. */
  lemma NamesIff(mantoId: string, g: Group)
    requires g.names.Some? && g.names.value != {}
    requires g.alignments.Some? && WellSplit(g.alignments.value)
    ensures ConcurrenceNames(mantoId, g).Ok?
    ensures ConcurrenceNames(mantoId, g).value.nameConcurrence.value <==>
      exists i :: 0 <= i < |g.alignments.value| && Shares(g, g.names.value, PickNames, g.alignments.value[i])
  {
    OverlapIff(g, g.names.value, PickNames);
  }

  /** `concurrence_types`: sets `type_concurrence`, and nothing else; a
      MANTO place without feature types never concurs. */
  function ConcurrenceTypes(mantoId: string, g: Group): (r: Result<Group>)
    ensures g.featureTypes.None? ==> r == Err(KeyError("feature_types"))
    ensures g.featureTypes == Some({}) ==> r == Ok(g.(typeConcurrence := Some(false)))
    ensures r.Err? ==> r.error in {KeyError("feature_types"), KeyError("alignments")} || r.error.ValueError?
    ensures r.Ok? ==> r.value == g.(typeConcurrence := r.value.typeConcurrence) && r.value.typeConcurrence.Some?
  {
    if g.featureTypes.None? then Err(KeyError("feature_types"))
    else if g.featureTypes.value == {} then Ok(g.(typeConcurrence := Some(false)))
    else if g.alignments.None? then Err(KeyError("alignments"))
    else
      var found :- Overlap(g, g.featureTypes.value, PickTypes);
      Ok(g.(typeConcurrence := Some(found)))
  }

  /** With feature types and well-formed aligned ids, the types concur
      exactly when an aligned gazetteer record shares one of them. */
  lemma TypesIff(mantoId: string, g: Group)
    requires g.featureTypes.Some? && g.featureTypes.value != {}
    requires g.alignments.Some? && WellSplit(g.alignments.value)
    ensures ConcurrenceTypes(mantoId, g).Ok?
    ensures ConcurrenceTypes(mantoId, g).value.typeConcurrence.value <==>
      exists i :: 0 <= i < |g.alignments.value|
        && Shares(g, g.featureTypes.value, PickTypes, g.alignments.value[i])
  {
    OverlapIff(g, g.featureTypes.value, PickTypes);
  }

  /** `concurrence` on one group: the three checks in order. */
  function Concurrence(mantoId: string, g: Group): (r: Result<Group>)
    ensures r.Ok? ==> r.value.reciprocal.Some? && r.value.typeConcurrence.Some?
    ensures r.Ok? ==> (r.value.nameConcurrence.Some? || g.names == Some({}))
    ensures r.Ok? ==> r.value.note == g.note && r.value.targets == g.targets
    ensures r.Ok? && (g.note.Some? ==> g.note.value.discuss.Some?) ==> ClassifyIntended(r.value).Ok?
  {
    var g1 :- ConcurrenceReciprocal(mantoId, g);
    var g2 :- ConcurrenceNames(mantoId, g1);
    ConcurrenceTypes(mantoId, g2)
  }

  // ---------------------------------------------------------------------
  // The work index
  // ---------------------------------------------------------------------

  datatype Bucket = Done | PendingDiscussion | Likely | Probable | Asserted

  /** Neither reciprocal nor flagged for discussion: ready for review. */
  predicate Ready(b: Bucket)
  {
    b in {Likely, Probable, Asserted}
  }

  /** The note asks for discussion. */
  predicate Discuss(g: Group)
  {
    g.note.Some? && g.note.value.discuss == Some(true)
  }

  /** Where `index` files one group. A reciprocal group is done whatever
      else it holds; otherwise a note asking for discussion wins; otherwise
      the concurrence flags decide, and a group the type check never saw is
      an error. */
  function Classify(g: Group): (r: Result<Bucket>)
    ensures r == Ok(Done) <==> g.reciprocal == Some(true)
    ensures r == Ok(PendingDiscussion) <==> g.reciprocal == Some(false) && Discuss(g)
    ensures r.Ok? && Ready(r.value) ==>
      g.reciprocal == Some(false) && !Discuss(g) && g.typeConcurrence.Some? && g.nameConcurrence.Some?
    ensures r == Ok(Likely) ==> g.nameConcurrence == Some(true) && g.typeConcurrence == Some(true)
    ensures r == Ok(Probable) ==> g.nameConcurrence == Some(true) && g.typeConcurrence == Some(false)
    ensures r == Ok(Asserted) ==> g.nameConcurrence == Some(false)
    ensures g.reciprocal.None? ==> r == Err(KeyError("reciprocal"))
    ensures g.reciprocal == Some(false) && g.note.Some? && g.note.value.discuss.None? ==> r == Err(KeyError("discuss"))
    ensures (g.reciprocal == Some(false) && !Discuss(g) && (g.note.Some? ==> g.note.value.discuss.Some?)
      && g.typeConcurrence.None?) ==> r == Err(RuntimeError)
    ensures (g.reciprocal == Some(false) && !Discuss(g) && (g.note.Some? ==> g.note.value.discuss.Some?)
      && g.typeConcurrence.Some? && g.nameConcurrence.None?) ==> r == Err(KeyError("name_concurrence"))
    ensures (g.reciprocal == Some(false) && !Discuss(g) && (g.note.Some? ==> g.note.value.discuss.Some?)
      && g.typeConcurrence.Some? && g.nameConcurrence.Some?) ==>
      r == Ok(if g.nameConcurrence.value && g.typeConcurrence.value then Likely
              else if g.nameConcurrence.value then Probable
              else Asserted)
  {
    if g.reciprocal.None? then Err(KeyError("reciprocal"))
    else if g.reciprocal.value then Ok(Done)
    else if g.note.Some? && g.note.value.discuss.None? then Err(KeyError("discuss"))
    else if g.note.Some? && g.note.value.discuss.value then Ok(PendingDiscussion)
    else if g.typeConcurrence.None? then Err(RuntimeError)
    else if g.nameConcurrence.None? then Err(KeyError("name_concurrence"))
    else if g.nameConcurrence.value && g.typeConcurrence.value then Ok(Likely)
    else if g.nameConcurrence.value then Ok(Probable)
    else Ok(Asserted)
  }

  /** The index: one set of MANTO ids per bucket. */
  datatype Index = Index(done: set<string>, pending: set<string>, likely: set<string>,
                         probable: set<string>, asserted: set<string>)
  {
    function Get(b: Bucket): set<string>
    {
      match b
      case Done => done
      case PendingDiscussion => pending
      case Likely => likely
      case Probable => probable
      case Asserted => asserted
    }

    /** Whether `id` is filed under bucket `b`. */
    predicate Has(b: Bucket, id: string)
    {
      id in Get(b)
    }

    function Add(b: Bucket, id: string): (r: Index)
      ensures r.Get(b) == Get(b) + {id}
      ensures forall c :: c != b ==> r.Get(c) == Get(c)
      ensures forall c, x {:trigger r.Has(c, x)} :: r.Has(c, x) <==> Has(c, x) || (c == b && x == id)
    {
      match b
      case Done => this.(done := done + {id})
      case PendingDiscussion => this.(pending := pending + {id})
      case Likely => this.(likely := likely + {id})
      case Probable => this.(probable := probable + {id})
      case Asserted => this.(asserted := asserted + {id})
    }
  }

  const EmptyIndex := Index({}, {}, {}, {}, {})

  /** `index`, visiting the groups in `order`, with the filing rule as a
      parameter. It fails with the error of the first group that cannot be
      filed; otherwise each visited id is in the bucket its group is filed
      under, and in no other. */
  function IndexWith(classify: Group -> Result<Bucket>, groups: map<string, Group>, order: seq<string>): (r: Result<Index>)
    requires forall i :: 0 <= i < |order| ==> order[i] in groups
    ensures r.Ok? <==> forall i :: 0 <= i < |order| ==> classify(groups[order[i]]).Ok?
    ensures r.Err? ==> exists i :: 0 <= i < |order| && classify(groups[order[i]]) == Err(r.error)
    ensures r.Ok? ==> forall id, b {:trigger r.value.Has(b, id)} :: r.value.Has(b, id) <==> id in order && classify(groups[id]) == Ok(b)
    decreases |order|
  {
    if |order| == 0 then Ok(EmptyIndex)
    else
      var b :- classify(groups[order[0]]);
      var rest :- IndexWith(classify, groups, order[1..]);
      assert forall id :: id in order <==> id == order[0] || id in order[1..];
      Ok(rest.Add(b, order[0]))
  }

  /** `index` as the script writes it. */
  function IndexGroups(groups: map<string, Group>, order: seq<string>): (r: Result<Index>)
    requires forall i :: 0 <= i < |order| ==> order[i] in groups
    ensures r.Ok? <==> forall i :: 0 <= i < |order| ==> Classify(groups[order[i]]).Ok?
  {
    IndexWith(Classify, groups, order)
  }

  /** Visiting every group once, a successful index partitions the MANTO
      ids: each lies in exactly the bucket its group is filed under, and the
      buckets together hold all of them. */
  lemma IndexPartition(classify: Group -> Result<Bucket>, groups: map<string, Group>, order: seq<string>, idx: Index)
    requires forall i :: 0 <= i < |order| ==> order[i] in groups
    requires forall id :: id in groups ==> id in order
    requires IndexWith(classify, groups, order) == Ok(idx)
    ensures forall id :: id in groups ==> (classify(groups[id]).Ok? && idx.Has(classify(groups[id]).value, id))
    ensures forall id, b {:trigger idx.Has(b, id)} :: idx.Has(b, id) ==> id in groups && classify(groups[id]) == Ok(b)
  {
    IndexVisitedAll(classify, groups, order);
    PartitionOf(classify, groups, order, idx);
  }

  /** An index holding exactly the visited ids under their buckets, with
      every id visited and every visit filed, partitions the MANTO ids. */
  lemma PartitionOf(classify: Group -> Result<Bucket>, groups: map<string, Group>, order: seq<string>, idx: Index)
    requires forall id :: id in order ==> id in groups && classify(groups[id]).Ok?
    requires forall id :: id in groups ==> id in order
    requires forall id, b {:trigger idx.Has(b, id)} :: idx.Has(b, id) <==> id in order && classify(groups[id]) == Ok(b)
    ensures forall id :: id in groups ==> (classify(groups[id]).Ok? && idx.Has(classify(groups[id]).value, id))
    ensures forall id, b {:trigger idx.Has(b, id)} :: idx.Has(b, id) ==> id in groups && classify(groups[id]) == Ok(b)
  {
  }

  /** Every id a successful index visits is a group that was filed. */
  lemma IndexVisitedAll(classify: Group -> Result<Bucket>, groups: map<string, Group>, order: seq<string>)
    requires forall i :: 0 <= i < |order| ==> order[i] in groups
    requires IndexWith(classify, groups, order).Ok?
    ensures forall id :: id in order ==> id in groups && classify(groups[id]).Ok?
  {
    forall id | id in order
      ensures id in groups && classify(groups[id]).Ok?
    {
      IndexVisited(classify, groups, order, id);
    }
  }

  lemma IndexVisited(classify: Group -> Result<Bucket>, groups: map<string, Group>, order: seq<string>, id: string)
    requires forall i :: 0 <= i < |order| ==> order[i] in groups
    requires IndexWith(classify, groups, order).Ok?
    requires id in order
    ensures id in groups && classify(groups[id]).Ok?
  {
    var i :| 0 <= i < |order| && order[i] == id;
    assert classify(groups[order[i]]).Ok?;
  }

  /** A group whose MANTO place has no names never gets a
      `name_concurrence` flag, so once the three checks have run, `index`
      raises KeyError on it unless it is done or flagged for discussion. */
  lemma NamelessGroupUnfiled()
    ensures var g := Group(Some({}), Some([]), Some({}), map[], None, None, None, None);
      Concurrence("1", g).Ok? && Classify(Concurrence("1", g).value) == Err(KeyError("name_concurrence"))
  {
    var g := Group(Some({}), Some([]), Some({}), map[], None, None, None, None);
    assert ConcurrenceReciprocal("1", g) == Ok(g.(reciprocal := Some(false)));
  }

  /** The filing rule with a missing name flag read as "no concurrence",
      the reading the type check already applies to a place without
      feature types. It agrees with `Classify` wherever that succeeds. */
  function ClassifyIntended(g: Group): (r: Result<Bucket>)
    ensures r.Err? ==> r.error in {KeyError("reciprocal"), KeyError("discuss"), RuntimeError}
    ensures Classify(g).Ok? ==> r == Classify(g)
    ensures g.nameConcurrence.None? && r.Ok? && Ready(r.value) ==> r == Ok(Asserted)
  {
    Classify(g.(nameConcurrence := if g.nameConcurrence.Some? then g.nameConcurrence else Some(false)))
  }

  /** `index` with the intended filing rule. */
  function IndexIntended(groups: map<string, Group>, order: seq<string>): (r: Result<Index>)
    requires forall i :: 0 <= i < |order| ==> order[i] in groups
    requires forall i :: 0 <= i < |order| ==> groups[order[i]].reciprocal.Some? && groups[order[i]].typeConcurrence.Some?
    requires forall i :: 0 <= i < |order| ==> (groups[order[i]].note.Some? ==> groups[order[i]].note.value.discuss.Some?)
    ensures r.Ok?
    ensures forall id, b {:trigger r.value.Has(b, id)} :: r.value.Has(b, id) <==> id in order && ClassifyIntended(groups[id]) == Ok(b)
  {
    IndexWith(ClassifyIntended, groups, order)
  }

  // ---------------------------------------------------------------------
  // Notes
  // ---------------------------------------------------------------------

  /** The note the file gives last for `id`, if any. */
  function LastNote(notes: seq<(string, Note)>, id: string): (r: Option<Note>)
    ensures r.Some? ==> (id, r.value) in notes
    ensures r.None? <==> forall i :: 0 <= i < |notes| ==> notes[i].0 != id
  {
    if |notes| == 0 then None
    else if notes[|notes| - 1].0 == id then Some(notes[|notes| - 1].1)
    else LastNote(notes[..|notes| - 1], id)
  }

  /** `annotate`: each note is attached to the group of its MANTO id, and a
      note whose id has no group is passed over. No group is added or
      removed, and nothing but the notes changes. */
  function Annotate(groups: map<string, Group>, notes: seq<(string, Note)>): (r: map<string, Group>)
    ensures r.Keys == groups.Keys
    ensures forall id :: id in r ==> r[id] == groups[id].(note := r[id].note)
    ensures forall id :: id in r ==>
      r[id].note == (if LastNote(notes, id).Some? then LastNote(notes, id) else groups[id].note)
    decreases |notes|
  {
    if |notes| == 0 then groups
    else
      var before := Annotate(groups, notes[..|notes| - 1]);
      var (id, note) := notes[|notes| - 1];
      if id in before then before[id := before[id].(note := Some(note))] else before
  }

  /** With one note per id, as in the notes file, each group carries
      exactly the note given for it. */
  lemma {:induction false} AnnotateDistinct(groups: map<string, Group>, notes: seq<(string, Note)>, i: nat)
    requires i < |notes| && notes[i].0 in groups
    requires forall j, k :: 0 <= j < k < |notes| ==> notes[j].0 != notes[k].0
    ensures Annotate(groups, notes)[notes[i].0].note == Some(notes[i].1)
  {
    LastNoteAt(notes, i);
  }

  lemma {:induction false} LastNoteAt(notes: seq<(string, Note)>, i: nat)
    requires i < |notes|
    requires forall j, k :: 0 <= j < k < |notes| ==> notes[j].0 != notes[k].0
    ensures LastNote(notes, notes[i].0) == Some(notes[i].1)
  {
    if i < |notes| - 1 {
      LastNoteAt(notes[..|notes| - 1], i);
    }
  }
}
