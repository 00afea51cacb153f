/** The `Aligner` state of `src/pleiades_aligner/aligner.py`: the map from
    identity to alignment, four additive indexes of identities, and
    `_register_alignment`, which inserts a draft or merges it into the stored
    record. The Python hash of the identity string is not modelled: the
    identity string itself is the key.
 */
module Engine {
  import opened Wrappers
  import opened Strings
  import opened Alignments

  type Index<K> = map<K, set<string>>

  datatype State = State(
    alignments: map<string, Alignment>,
    byMode: Index<Mode>,
    byFullId: Index<string>,
    byIdNamespace: Index<string>,
    byAuthorityNamespace: Index<string>)

  /** The state right after `Aligner.__init__`: no alignments, and a bucket
      for each supported mode. */
  function Init(): (st: State)
    ensures Valid(st)
    ensures st.alignments == map[]
  {
    State(map[], map[Assertion := {}, Proximity := {}, Inference := {}], map[], map[], map[])
  }

  /** A draft that registration can store: well formed, one proximity label
      at most, and a label only together with the proximity mode. Every
      draft the strategies build is of this kind. */
  predicate DraftOk(a: Alignment)
  {
    && WellFormed(a)
    && a.modes != {}
    && |a.proximity| <= 1
    && (a.proximity != {} ==> Proximity in a.modes)
  }

  /** Every stored alignment sits under its own identity and is a valid
      draft. */
  predicate StoreOk(st: State)
  {
    forall h :: h in st.alignments ==> DraftOk(st.alignments[h]) && Identity(st.alignments[h]) == h
  }

  /** Index entries name stored alignments that have the indexed property. */
  predicate ModeSound(st: State)
  {
    forall m, h :: m in st.byMode && h in st.byMode[m] ==> h in st.alignments && m in st.alignments[h].modes
  }

  predicate FullIdSound(st: State)
  {
    forall id, h :: id in st.byFullId && h in st.byFullId[id] ==> h in st.alignments && id in st.alignments[h].Ids()
  }

  predicate IdNamespaceSound(st: State)
  {
    forall ns, h :: ns in st.byIdNamespace && h in st.byIdNamespace[ns] ==>
      h in st.alignments && ns in st.alignments[h].idNamespaces
  }

  predicate AuthorityNamespaceSound(st: State)
  {
    forall ns, h :: ns in st.byAuthorityNamespace && h in st.byAuthorityNamespace[ns] ==>
      h in st.alignments && ns in st.alignments[h].authorityNamespaces
  }

  /** Every stored alignment is listed under each id, id namespace and
      authority namespace it has. */
  predicate FullIdComplete(st: State)
  {
    forall h, id :: h in st.alignments && id in st.alignments[h].Ids() ==> id in st.byFullId && h in st.byFullId[id]
  }

  predicate IdNamespaceComplete(st: State)
  {
    forall h, ns :: h in st.alignments && ns in st.alignments[h].idNamespaces ==>
      ns in st.byIdNamespace && h in st.byIdNamespace[ns]
  }

  predicate AuthorityNamespaceComplete(st: State)
  {
    forall h, ns :: h in st.alignments && ns in st.alignments[h].authorityNamespaces ==>
      ns in st.byAuthorityNamespace && h in st.byAuthorityNamespace[ns]
  }

  /** The id, id-namespace and authority-namespace indexes hold no empty
      bucket: a bucket is created only to receive an identity. */
  predicate NoEmptyBucket<K>(idx: Index<K>)
  {
    forall k :: k in idx ==> idx[k] != {}
  }

  predicate Sound(st: State)
  {
    ModeSound(st) && FullIdSound(st) && IdNamespaceSound(st) && AuthorityNamespaceSound(st)
  }

  predicate Complete(st: State)
  {
    FullIdComplete(st) && IdNamespaceComplete(st) && AuthorityNamespaceComplete(st)
  }

  /** The mode index has exactly the three mode buckets; the other indexes
      have no empty bucket. */
  predicate Shape(st: State)
  {
    && st.byMode.Keys == AllModes
    && NoEmptyBucket(st.byFullId) && NoEmptyBucket(st.byIdNamespace) && NoEmptyBucket(st.byAuthorityNamespace)
  }

  /** The invariant the aligner keeps between registrations. The mode index
      is sound but not complete: the assertion and proximity passes empty
      their own mode bucket before they run. */
  predicate Valid(st: State)
  {
    StoreOk(st) && Shape(st) && Sound(st) && Complete(st)
  }

  /** Add identity `h` under each of `keys`, creating missing buckets. */
  function AddUnder<K>(idx: Index<K>, keys: set<K>, h: string): (r: Index<K>)
    ensures r.Keys == idx.Keys + keys
  {
    map k | k in idx.Keys + keys ::
      (if k in idx then idx[k] else {}) + (if k in keys then {h} else {})
  }

  /** Adding never leaves an empty bucket behind. */
  lemma AddUnderNonEmpty<K>(idx: Index<K>, keys: set<K>, h: string)
    requires NoEmptyBucket(idx)
    ensures NoEmptyBucket(AddUnder(idx, keys, h))
  {
  }

  /** An entry is in the extended index exactly when it was there before or
      is `h` under one of `keys`. */
  lemma AddUnderHas<K>(idx: Index<K>, keys: set<K>, h: string, k: K, x: string)
    ensures var r := AddUnder(idx, keys, h);
            (k in r && x in r[k]) <==> ((k in keys && x == h) || (k in idx && x in idx[k]))
  {
  }

  /** The stored record after a duplicate draft: the prior record with the
      draft's authorities (and their namespaces) and modes added. The prior
      proximity labels are kept and the draft's are not copied. */
  function Merge(prior: Alignment, draft: Alignment): Alignment
  {
    prior.(authorities := prior.authorities + draft.authorities,
           authorityNamespaces := prior.authorityNamespaces + Namespaces(draft.authorities),
           modes := prior.modes + draft.modes)
  }

  /** Merging keeps a record well formed: the added authority namespaces are
      exactly those of the added authorities. */
  lemma MergeWellFormed(prior: Alignment, draft: Alignment)
    requires WellFormed(prior)
    ensures WellFormed(Merge(prior, draft))
    ensures WellFormed(draft) ==>
      Merge(prior, draft).authorityNamespaces == prior.authorityNamespaces + draft.authorityNamespaces
  {
    NamespacesUnion(prior.authorities, draft.authorities);
  }

  /** The record `_register_alignment` stores for `draft`. */
  function Stored(st: State, draft: Alignment): Alignment
  {
    var key := Identity(draft);
    if key in st.alignments then Merge(st.alignments[key], draft) else draft
  }

  /** Store `stored` under `key` and list `key` in every index bucket the
      record belongs to. */
  function Put(st: State, key: string, stored: Alignment): State
  {
    State(
      st.alignments[key := stored],
      AddUnder(st.byMode, stored.modes, key),
      AddUnder(st.byFullId, stored.Ids(), key),
      AddUnder(st.byIdNamespace, stored.idNamespaces, key),
      AddUnder(st.byAuthorityNamespace, stored.authorityNamespaces, key))
  }

  /** `_register_alignment`: store the draft or merge it into the record
      of the same identity, then index the stored record. */
  function Register(st: State, draft: Alignment): State
  {
    Put(st, Identity(draft), Stored(st, draft))
  }

  /** The merge rule: a draft with a new identity is stored unchanged;
      otherwise the prior record gains the draft's authorities and modes and
      keeps its ids and proximity labels. No other record changes. */
  lemma RegisterMerges(st: State, draft: Alignment)
    ensures var r := Register(st, draft);
            var key := Identity(draft);
            && r.alignments.Keys == st.alignments.Keys + {key}
            && (forall h :: h in st.alignments && h != key ==> r.alignments[h] == st.alignments[h])
            && (key !in st.alignments ==> r.alignments[key] == draft)
            && (key in st.alignments ==>
                  var prior := st.alignments[key];
                  && r.alignments[key].lo == prior.lo && r.alignments[key].hi == prior.hi
                  && r.alignments[key].authorities == prior.authorities + draft.authorities
                  && r.alignments[key].modes == prior.modes + draft.modes
                  && r.alignments[key].proximity == prior.proximity)
  {
  }

  /** What registration stores under one identity `key`. */
  lemma RegisterAt(st: State, draft: Alignment, key: string)
    ensures var r := Register(st, draft).alignments;
            && (key in r <==> key in st.alignments || key == Identity(draft))
            && (key != Identity(draft) && key in st.alignments ==> r[key] == st.alignments[key])
            && (key == Identity(draft) && key !in st.alignments ==> r[key] == draft)
            && (key == Identity(draft) && key in st.alignments ==> r[key] == Merge(st.alignments[key], draft))
  {
  }

  /** After registration the identity is listed under every mode, id, id
      namespace and authority namespace of the stored record. */
  lemma RegisterIndexes(st: State, draft: Alignment)
    ensures var r := Register(st, draft);
            var key := Identity(draft);
            var a := r.alignments[key];
            && (forall m :: m in a.modes ==> m in r.byMode && key in r.byMode[m])
            && (forall id :: id in a.Ids() ==> id in r.byFullId && key in r.byFullId[id])
            && (forall ns :: ns in a.idNamespaces ==> ns in r.byIdNamespace && key in r.byIdNamespace[ns])
            && (forall ns :: ns in a.authorityNamespaces ==>
                  ns in r.byAuthorityNamespace && key in r.byAuthorityNamespace[ns])
  {
  }

  /** `idx` is contained in `idx2`, bucket by bucket. */
  predicate IndexGrows<K>(idx: Index<K>, idx2: Index<K>)
  {
    forall k :: k in idx ==> k in idx2 && idx[k] <= idx2[k]
  }

  /** `a2` is `a` with possibly more authorities and modes. */
  predicate RecordGrows(a: Alignment, a2: Alignment)
  {
    && a2.lo == a.lo && a2.hi == a.hi
    && a2.idNamespaces == a.idNamespaces
    && a2.proximity == a.proximity
    && a.authorities <= a2.authorities
    && a.authorityNamespaces <= a2.authorityNamespaces
    && a.modes <= a2.modes
  }

  /** Nothing is lost from `st` to `st2`: stored alignments stay, with the same
      ids and proximity labels and at least the same authorities and modes;
      index entries stay. */
  predicate Grows(st: State, st2: State)
  {
    && (forall h :: h in st.alignments ==> h in st2.alignments && RecordGrows(st.alignments[h], st2.alignments[h]))
    && IndexGrows(st.byMode, st2.byMode)
    && IndexGrows(st.byFullId, st2.byFullId)
    && IndexGrows(st.byIdNamespace, st2.byIdNamespace)
    && IndexGrows(st.byAuthorityNamespace, st2.byAuthorityNamespace)
  }

  lemma GrowsTransitive(s1: State, s2: State, s3: State)
    requires Grows(s1, s2) && Grows(s2, s3)
    ensures Grows(s1, s3)
  {
  }

  /** Registration only adds: entries are never removed from the store or the
      indexes. */
  lemma RegisterGrows(st: State, draft: Alignment)
    ensures Grows(st, Register(st, draft))
  {
  }

  /** Registration keeps the state valid. */
  lemma RegisterValid(st: State, draft: Alignment)
    requires Valid(st) && DraftOk(draft)
    ensures Valid(Register(st, draft))
  {
    var key := Identity(draft);
    var stored := Stored(st, draft);
    StoredOk(st, draft);
    PutStoreOk(st, key, stored);
    PutShape(st, key, stored);
    RegisterSound(st, draft);
    RegisterComplete(st, draft);
  }

  /** The stored record is a valid draft with the draft's identity and, when
      there was a prior record, extends it. */
  lemma StoredOk(st: State, draft: Alignment)
    requires StoreOk(st) && DraftOk(draft)
    ensures DraftOk(Stored(st, draft)) && Identity(Stored(st, draft)) == Identity(draft)
    ensures Identity(draft) in st.alignments ==> RecordGrows(st.alignments[Identity(draft)], Stored(st, draft))
  {
    var key := Identity(draft);
    if key in st.alignments {
      var prior := st.alignments[key];
      assert DraftOk(prior) && Identity(prior) == key;
      var merged := Merge(prior, draft);
      MergeWellFormed(prior, draft);
      assert Identity(merged) == Identity(prior);
    }
  }

  lemma PutStoreOk(st: State, key: string, stored: Alignment)
    requires StoreOk(st) && DraftOk(stored) && Identity(stored) == key
    ensures StoreOk(Put(st, key, stored))
  {
    var r := Put(st, key, stored);
    forall h | h in r.alignments
      ensures DraftOk(r.alignments[h]) && Identity(r.alignments[h]) == h
    {
      if h != key {
        assert r.alignments[h] == st.alignments[h];
      }
    }
  }

  lemma PutShape(st: State, key: string, stored: Alignment)
    requires Shape(st)
    ensures Shape(Put(st, key, stored))
  {
    var r := Put(st, key, stored);
    forall m | m in stored.modes
      ensures m in AllModes
    {
      match m
      case Assertion =>
      case Proximity =>
      case Inference =>
    }
    assert r.byMode.Keys == AllModes + stored.modes;
    AddUnderNonEmpty(st.byFullId, stored.Ids(), key);
    AddUnderNonEmpty(st.byIdNamespace, stored.idNamespaces, key);
    AddUnderNonEmpty(st.byAuthorityNamespace, stored.authorityNamespaces, key);
  }

  lemma RegisterSound(st: State, draft: Alignment)
    requires StoreOk(st) && DraftOk(draft) && Sound(st)
    ensures Sound(Register(st, draft))
  {
    var key := Identity(draft);
    var stored := Stored(st, draft);
    StoredOk(st, draft);
    PutModeSound(st, key, stored);
    PutFullIdSound(st, key, stored);
    PutIdNamespaceSound(st, key, stored);
    PutAuthorityNamespaceSound(st, key, stored);
  }

  lemma PutModeSound(st: State, key: string, stored: Alignment)
    requires ModeSound(st)
    requires key in st.alignments ==> RecordGrows(st.alignments[key], stored)
    ensures ModeSound(Put(st, key, stored))
  {
    var r := Put(st, key, stored);
    forall m, h | m in r.byMode && h in r.byMode[m]
      ensures h in r.alignments && m in r.alignments[h].modes
    {
      AddUnderHas(st.byMode, stored.modes, key, m, h);
      if h != key {
        assert r.alignments[h] == st.alignments[h];
      }
    }
  }

  lemma PutFullIdSound(st: State, key: string, stored: Alignment)
    requires FullIdSound(st)
    requires key in st.alignments ==> RecordGrows(st.alignments[key], stored)
    ensures FullIdSound(Put(st, key, stored))
  {
    var r := Put(st, key, stored);
    forall id, h | id in r.byFullId && h in r.byFullId[id]
      ensures h in r.alignments && id in r.alignments[h].Ids()
    {
      AddUnderHas(st.byFullId, stored.Ids(), key, id, h);
      if h != key {
        assert r.alignments[h] == st.alignments[h];
      }
    }
  }

  lemma PutIdNamespaceSound(st: State, key: string, stored: Alignment)
    requires IdNamespaceSound(st)
    requires key in st.alignments ==> RecordGrows(st.alignments[key], stored)
    ensures IdNamespaceSound(Put(st, key, stored))
  {
    var r := Put(st, key, stored);
    forall ns, h | ns in r.byIdNamespace && h in r.byIdNamespace[ns]
      ensures h in r.alignments && ns in r.alignments[h].idNamespaces
    {
      AddUnderHas(st.byIdNamespace, stored.idNamespaces, key, ns, h);
      if h != key {
        assert r.alignments[h] == st.alignments[h];
      }
    }
  }

  lemma PutAuthorityNamespaceSound(st: State, key: string, stored: Alignment)
    requires AuthorityNamespaceSound(st)
    requires key in st.alignments ==> RecordGrows(st.alignments[key], stored)
    ensures AuthorityNamespaceSound(Put(st, key, stored))
  {
    var r := Put(st, key, stored);
    forall ns, h | ns in r.byAuthorityNamespace && h in r.byAuthorityNamespace[ns]
      ensures h in r.alignments && ns in r.alignments[h].authorityNamespaces
    {
      AddUnderHas(st.byAuthorityNamespace, stored.authorityNamespaces, key, ns, h);
      if h != key {
        assert r.alignments[h] == st.alignments[h];
      }
    }
  }

  lemma RegisterComplete(st: State, draft: Alignment)
    requires Complete(st)
    ensures Complete(Register(st, draft))
  {
    var key := Identity(draft);
    var stored := Stored(st, draft);
    PutFullIdComplete(st, key, stored);
    PutIdNamespaceComplete(st, key, stored);
    PutAuthorityNamespaceComplete(st, key, stored);
  }

  lemma PutFullIdComplete(st: State, key: string, stored: Alignment)
    requires FullIdComplete(st)
    ensures FullIdComplete(Put(st, key, stored))
  {
    var r := Put(st, key, stored);
    forall h, id | h in r.alignments && id in r.alignments[h].Ids()
      ensures id in r.byFullId && h in r.byFullId[id]
    {
      AddUnderHas(st.byFullId, stored.Ids(), key, id, h);
      if h != key {
        assert r.alignments[h] == st.alignments[h];
      }
    }
  }

  lemma PutIdNamespaceComplete(st: State, key: string, stored: Alignment)
    requires IdNamespaceComplete(st)
    ensures IdNamespaceComplete(Put(st, key, stored))
  {
    var r := Put(st, key, stored);
    forall h, ns | h in r.alignments && ns in r.alignments[h].idNamespaces
      ensures ns in r.byIdNamespace && h in r.byIdNamespace[ns]
    {
      AddUnderHas(st.byIdNamespace, stored.idNamespaces, key, ns, h);
      if h != key {
        assert r.alignments[h] == st.alignments[h];
      }
    }
  }

  lemma PutAuthorityNamespaceComplete(st: State, key: string, stored: Alignment)
    requires AuthorityNamespaceComplete(st)
    ensures AuthorityNamespaceComplete(Put(st, key, stored))
  {
    var r := Put(st, key, stored);
    forall h, ns | h in r.alignments && ns in r.alignments[h].authorityNamespaces
      ensures ns in r.byAuthorityNamespace && h in r.byAuthorityNamespace[ns]
    {
      AddUnderHas(st.byAuthorityNamespace, stored.authorityNamespaces, key, ns, h);
      if h != key {
        assert r.alignments[h] == st.alignments[h];
      }
    }
  }

  /** Registering the same draft twice changes nothing the second time. */
  lemma RegisterIdempotent(st: State, draft: Alignment)
    requires WellFormed(draft)
    ensures Register(Register(st, draft), draft) == Register(st, draft)
  {
    StoredAgain(st, draft);
    PutIdempotent(st, Identity(draft), Stored(st, draft));
  }

  /** The record stored for a draft already absorbs that draft. */
  lemma StoredAgain(st: State, draft: Alignment)
    requires WellFormed(draft)
    ensures Stored(Register(st, draft), draft) == Stored(st, draft)
  {
    var key := Identity(draft);
    var stored := Stored(st, draft);
    assert Register(st, draft).alignments[key] == stored;
    if key in st.alignments {
      MergeAbsorbs(st.alignments[key], draft);
    } else {
      MergeAbsorbs2(draft);
    }
  }

  /** Merging a draft into a record that already holds its evidence changes
      nothing. */
  lemma MergeAbsorbs(prior: Alignment, draft: Alignment)
    ensures Merge(Merge(prior, draft), draft) == Merge(prior, draft)
  {
  }

  lemma MergeAbsorbs2(draft: Alignment)
    requires WellFormed(draft)
    ensures Merge(draft, draft) == draft
  {
  }

  lemma PutIdempotent(st: State, key: string, stored: Alignment)
    ensures Put(Put(st, key, stored), key, stored) == Put(st, key, stored)
  {
    AddUnderIdempotent(st.byMode, stored.modes, key);
    AddUnderIdempotent(st.byFullId, stored.Ids(), key);
    AddUnderIdempotent(st.byIdNamespace, stored.idNamespaces, key);
    AddUnderIdempotent(st.byAuthorityNamespace, stored.authorityNamespaces, key);
  }

  lemma AddUnderIdempotent<K>(idx: Index<K>, keys: set<K>, h: string)
    ensures AddUnder(AddUnder(idx, keys, h), keys, h) == AddUnder(idx, keys, h)
  {
    var once := AddUnder(idx, keys, h);
    var twice := AddUnder(once, keys, h);
    forall k | k in twice
      ensures twice[k] == once[k]
    {
    }
  }

  /** Registering a draft with the same ids and a different mode, in either
      id order, stores one alignment carrying both modes. */
  lemma RegisterTwoModes(st: State, id1: string, id2: string, m1: Mode, m2: Mode)
    requires Identity(Make(id1, id2, m1, None, None)) !in st.alignments
    ensures var d1 := Make(id1, id2, m1, None, None);
            var d2 := Make(id2, id1, m2, None, None);
            var r := Register(Register(st, d1), d2);
            && Identity(d1) == Identity(d2)
            && r.alignments.Keys == st.alignments.Keys + {Identity(d1)}
            && r.alignments[Identity(d1)].modes == {m1, m2}
  {
    var d1 := Make(id1, id2, m1, None, None);
    var d2 := Make(id2, id1, m2, None, None);
    IdentityIgnoresEvidence(id1, id2, m1, None, None, m2, None, None);
    RegisterMerges(st, d1);
    RegisterMerges(Register(st, d1), d2);
  }

  /** `alignments_by_mode`: the stored alignments whose identity is in the
      mode's bucket. Each of them has that mode. */
  function AlignmentsByMode(st: State, m: Mode): (r: set<Alignment>)
    requires Valid(st)
    ensures forall a :: a in r ==> a in st.alignments.Values && m in a.modes
    ensures m in st.byMode && forall h :: h in st.byMode[m] ==> h in st.alignments && st.alignments[h] in r
    ensures m in st.byMode && forall a :: a in r ==> exists h :: h in st.byMode[m] && h in st.alignments && st.alignments[h] == a
  {
    ModeInAll(m);
    set h | h in st.byMode[m] :: st.alignments[h]
  }

  /** `alignments_by_mode` called with a mode name: a name outside the three
      mode buckets is a `KeyError`. */
  function AlignmentsByModeName(st: State, name: string): (r: Result<set<Alignment>>)
    requires Valid(st)
    ensures r.Err? <==> name !in {"assertion", "proximity", "inference"}
    ensures r.Err? ==> r.error == KeyError(name)
    ensures r.Ok? ==> r.value == AlignmentsByMode(st, ParseMode(name).value)
  {
    match ParseMode(name)
    case Ok(m) => Ok(AlignmentsByMode(st, m))
    case Err(_) => Err(KeyError(name))
  }

  lemma ModeInAll(m: Mode)
    ensures m in AllModes
  {
  }

  /** The stored alignments whose identity is in `bucket`. */
  function Lookup(st: State, bucket: set<string>): set<Alignment>
    requires bucket <= st.alignments.Keys
  {
    set h | h in bucket :: st.alignments[h]
  }

  /** `alignments_by_full_id`: a `KeyError` when no stored alignment has the
      id, otherwise exactly the stored alignments that have it. */
  function AlignmentsByFullId(st: State, id: string): (r: Result<set<Alignment>>)
    requires Valid(st)
    ensures r.Err? <==> forall h :: h in st.alignments ==> id !in st.alignments[h].Ids()
    ensures r.Err? ==> r.error == KeyError(id)
    ensures r.Ok? ==> forall a :: a in r.value <==> a in st.alignments.Values && id in a.Ids()
  {
    FullIdBucket(st, id);
    if id !in st.byFullId then Err(KeyError(id))
    else Ok(Lookup(st, st.byFullId[id]))
  }

  lemma FullIdBucket(st: State, id: string)
    requires FullIdSound(st) && FullIdComplete(st) && NoEmptyBucket(st.byFullId)
    ensures id in st.byFullId ==> st.byFullId[id] <= st.alignments.Keys
    ensures (id in st.byFullId) <==> exists h :: h in st.alignments && id in st.alignments[h].Ids()
    ensures id in st.byFullId ==>
      forall a :: a in Lookup(st, st.byFullId[id]) <==> a in st.alignments.Values && id in a.Ids()
  {
    if id in st.byFullId {
      var bucket := st.byFullId[id];
      assert bucket != {};
      var h :| h in bucket;
      assert h in st.alignments && id in st.alignments[h].Ids();
      forall a | a in st.alignments.Values && id in a.Ids()
        ensures a in Lookup(st, bucket)
      {
        var k :| k in st.alignments && st.alignments[k] == a;
        assert k in bucket;
      }
    }
  }

  /** `alignments_by_id_namespace`: a `KeyError` when no stored alignment has
      an id in the namespace, otherwise exactly those that have one. */
  function AlignmentsByIdNamespace(st: State, ns: string): (r: Result<set<Alignment>>)
    requires Valid(st)
    ensures r.Err? <==> forall h :: h in st.alignments ==> ns !in st.alignments[h].idNamespaces
    ensures r.Err? ==> r.error == KeyError(ns)
    ensures r.Ok? ==> forall a :: a in r.value <==> a in st.alignments.Values && ns in a.idNamespaces
  {
    IdNamespaceBucket(st, ns);
    if ns !in st.byIdNamespace then Err(KeyError(ns))
    else Ok(Lookup(st, st.byIdNamespace[ns]))
  }

  lemma IdNamespaceBucket(st: State, ns: string)
    requires IdNamespaceSound(st) && IdNamespaceComplete(st) && NoEmptyBucket(st.byIdNamespace)
    ensures ns in st.byIdNamespace ==> st.byIdNamespace[ns] <= st.alignments.Keys
    ensures (ns in st.byIdNamespace) <==> exists h :: h in st.alignments && ns in st.alignments[h].idNamespaces
    ensures ns in st.byIdNamespace ==>
      forall a :: a in Lookup(st, st.byIdNamespace[ns]) <==> a in st.alignments.Values && ns in a.idNamespaces
  {
    if ns in st.byIdNamespace {
      var bucket := st.byIdNamespace[ns];
      assert bucket != {};
      var h :| h in bucket;
      assert h in st.alignments && ns in st.alignments[h].idNamespaces;
      forall a | a in st.alignments.Values && ns in a.idNamespaces
        ensures a in Lookup(st, bucket)
      {
        var k :| k in st.alignments && st.alignments[k] == a;
        assert k in bucket;
      }
    }
  }

  /** `alignments_by_authority_namespace`: exactly the stored alignments with
      an authority in the namespace, and an empty collection (not an error)
      for an unknown namespace. */
  function AlignmentsByAuthorityNamespace(st: State, ns: string): (r: set<Alignment>)
    requires Valid(st)
    ensures forall a :: a in r <==> a in st.alignments.Values && ns in a.authorityNamespaces
  {
    AuthorityNamespaceBucket(st, ns);
    if ns !in st.byAuthorityNamespace then {}
    else Lookup(st, st.byAuthorityNamespace[ns])
  }

  lemma AuthorityNamespaceBucket(st: State, ns: string)
    requires AuthorityNamespaceSound(st) && AuthorityNamespaceComplete(st)
    ensures ns in st.byAuthorityNamespace ==> st.byAuthorityNamespace[ns] <= st.alignments.Keys
    ensures ns !in st.byAuthorityNamespace ==>
      forall a :: a in st.alignments.Values ==> ns !in a.authorityNamespaces
    ensures ns in st.byAuthorityNamespace ==>
      forall a :: a in Lookup(st, st.byAuthorityNamespace[ns]) <==> a in st.alignments.Values && ns in a.authorityNamespaces
  {
    forall a | a in st.alignments.Values && ns in a.authorityNamespaces
      ensures ns in st.byAuthorityNamespace && a in Lookup(st, st.byAuthorityNamespace[ns])
    {
      var k :| k in st.alignments && st.alignments[k] == a;
      assert k in st.byAuthorityNamespace[ns];
    }
  }

  /** Register the drafts one after the other. */
  function RegisterAll(st: State, drafts: seq<Alignment>): State
    decreases |drafts|
  {
    if |drafts| == 0 then st
    else Register(RegisterAll(st, drafts[..|drafts| - 1]), drafts[|drafts| - 1])
  }

  /** The identities of a sequence of drafts. */
  function Identities(drafts: seq<Alignment>): set<string>
  {
    set i | 0 <= i < |drafts| :: Identity(drafts[i])
  }

  lemma IdentitiesSnoc(drafts: seq<Alignment>)
    requires |drafts| > 0
    ensures Identities(drafts) == Identities(drafts[..|drafts| - 1]) + {Identity(drafts[|drafts| - 1])}
  {
    var init := drafts[..|drafts| - 1];
    forall k | k in Identities(drafts)
      ensures k in Identities(init) + {Identity(drafts[|drafts| - 1])}
    {
      var i :| 0 <= i < |drafts| && Identity(drafts[i]) == k;
      if i < |init| {
        assert init[i] == drafts[i];
      }
    }
    forall k | k in Identities(init)
      ensures k in Identities(drafts)
    {
      var i :| 0 <= i < |init| && Identity(init[i]) == k;
      assert init[i] == drafts[i];
    }
  }

  /** After a run of registrations the store holds the prior identities and
      the identity of every draft, and nothing else. */
  lemma {:induction false} RegisterAllKeys(st: State, drafts: seq<Alignment>)
    ensures RegisterAll(st, drafts).alignments.Keys == st.alignments.Keys + Identities(drafts)
    decreases |drafts|
  {
    if |drafts| > 0 {
      var init := drafts[..|drafts| - 1];
      RegisterAllKeys(st, init);
      IdentitiesSnoc(drafts);
      RegisterMerges(RegisterAll(st, init), drafts[|drafts| - 1]);
    }
  }

  /** Registering a sequence only adds to the store and the indexes. */
  lemma {:induction false} RegisterAllGrows(st: State, drafts: seq<Alignment>)
    ensures Grows(st, RegisterAll(st, drafts))
    decreases |drafts|
  {
    if |drafts| > 0 {
      var prev := RegisterAll(st, drafts[..|drafts| - 1]);
      RegisterAllGrows(st, drafts[..|drafts| - 1]);
      RegisterGrows(prev, drafts[|drafts| - 1]);
      GrowsTransitive(st, prev, RegisterAll(st, drafts));
    }
  }

  /** Registering a sequence of valid drafts keeps the state valid. */
  lemma {:induction false} RegisterAllValid(st: State, drafts: seq<Alignment>)
    requires Valid(st)
    requires forall i :: 0 <= i < |drafts| ==> DraftOk(drafts[i])
    ensures Valid(RegisterAll(st, drafts))
    decreases |drafts|
  {
    if |drafts| > 0 {
      RegisterAllValid(st, drafts[..|drafts| - 1]);
      RegisterValid(RegisterAll(st, drafts[..|drafts| - 1]), drafts[|drafts| - 1]);
    }
  }

  /** The authorities the drafts with identity `key` carry. */
  function DraftAuthorities(drafts: seq<Alignment>, key: string): set<string>
  {
    if |drafts| == 0 then {}
    else
      var last := drafts[|drafts| - 1];
      DraftAuthorities(drafts[..|drafts| - 1], key) + (if Identity(last) == key then last.authorities else {})
  }

  /** The modes the drafts with identity `key` carry. */
  function DraftModes(drafts: seq<Alignment>, key: string): set<Mode>
  {
    if |drafts| == 0 then {}
    else
      var last := drafts[|drafts| - 1];
      DraftModes(drafts[..|drafts| - 1], key) + (if Identity(last) == key then last.modes else {})
  }

  /** An authority is in `DraftAuthorities` exactly when some draft with that
      identity carries it. */
  lemma {:induction false} DraftAuthoritiesMember(drafts: seq<Alignment>, key: string, x: string)
    ensures x in DraftAuthorities(drafts, key) <==>
      exists i :: 0 <= i < |drafts| && Identity(drafts[i]) == key && x in drafts[i].authorities
    decreases |drafts|
  {
    if |drafts| > 0 {
      var init := drafts[..|drafts| - 1];
      DraftAuthoritiesMember(init, key, x);
      assert forall i :: 0 <= i < |init| ==> init[i] == drafts[i];
    }
  }

  /** A mode is in `DraftModes` exactly when some draft with that identity
      carries it. */
  lemma {:induction false} DraftModesMember(drafts: seq<Alignment>, key: string, m: Mode)
    ensures m in DraftModes(drafts, key) <==>
      exists i :: 0 <= i < |drafts| && Identity(drafts[i]) == key && m in drafts[i].modes
    decreases |drafts|
  {
    if |drafts| > 0 {
      var init := drafts[..|drafts| - 1];
      DraftModesMember(init, key, m);
      assert forall i :: 0 <= i < |init| ==> init[i] == drafts[i];
    }
  }

  /** The position of the first draft with identity `key`, if any. */
  function FirstWithIdentity(drafts: seq<Alignment>, key: string): (r: Option<nat>)
    ensures r.Some? ==> r.value < |drafts| && Identity(drafts[r.value]) == key
    ensures r.Some? ==> forall j :: 0 <= j < r.value ==> Identity(drafts[j]) != key
    ensures r.None? ==> forall j :: 0 <= j < |drafts| ==> Identity(drafts[j]) != key
    decreases |drafts|
  {
    if |drafts| == 0 then None
    else
      var init := drafts[..|drafts| - 1];
      var p := FirstWithIdentity(init, key);
      assert forall j :: 0 <= j < |init| ==> init[j] == drafts[j];
      if p.Some? then p
      else if Identity(drafts[|drafts| - 1]) == key then Some(|drafts| - 1)
      else None
  }

  /** The authorities and modes a run of registrations stores under an
      identity: those of the prior record (if any) and of every draft with
      that identity, united. */
  lemma {:induction false} RegisterAllEvidence(st: State, drafts: seq<Alignment>, key: string)
    requires key in RegisterAll(st, drafts).alignments
    ensures var r := RegisterAll(st, drafts).alignments[key];
            && r.authorities == (if key in st.alignments then st.alignments[key].authorities else {}) + DraftAuthorities(drafts, key)
            && r.modes == (if key in st.alignments then st.alignments[key].modes else {}) + DraftModes(drafts, key)
  {
    RegisterAllAuthorities(st, drafts, key);
    RegisterAllModes(st, drafts, key);
  }

  lemma {:induction false} RegisterAllAuthorities(st: State, drafts: seq<Alignment>, key: string)
    requires key in RegisterAll(st, drafts).alignments
    ensures RegisterAll(st, drafts).alignments[key].authorities ==
            (if key in st.alignments then st.alignments[key].authorities else {}) + DraftAuthorities(drafts, key)
    decreases |drafts|
  {
    if |drafts| > 0 {
      var init := drafts[..|drafts| - 1];
      var last := drafts[|drafts| - 1];
      var prev := RegisterAll(st, init).alignments;
      var r := RegisterAll(st, drafts).alignments;
      RegisterAt(RegisterAll(st, init), last, key);
      var before := if key in prev then prev[key].authorities else {};
      assert r[key].authorities == before + (if Identity(last) == key then last.authorities else {});
      if key in prev {
        RegisterAllAuthorities(st, init, key);
      } else {
        NoneBefore(st, init, key);
      }
    }
  }

  lemma {:induction false} RegisterAllModes(st: State, drafts: seq<Alignment>, key: string)
    requires key in RegisterAll(st, drafts).alignments
    ensures RegisterAll(st, drafts).alignments[key].modes ==
            (if key in st.alignments then st.alignments[key].modes else {}) + DraftModes(drafts, key)
    decreases |drafts|
  {
    if |drafts| > 0 {
      var init := drafts[..|drafts| - 1];
      var last := drafts[|drafts| - 1];
      var prev := RegisterAll(st, init).alignments;
      var r := RegisterAll(st, drafts).alignments;
      RegisterAt(RegisterAll(st, init), last, key);
      var before := if key in prev then prev[key].modes else {};
      assert r[key].modes == before + (if Identity(last) == key then last.modes else {});
      if key in prev {
        RegisterAllModes(st, init, key);
      } else {
        NoneBefore(st, init, key);
      }
    }
  }

  /** A record already stored keeps its ids and proximity labels through any
      run of registrations. */
  lemma {:induction false} RegisterAllKeepsPrior(st: State, drafts: seq<Alignment>, key: string)
    requires key in st.alignments
    ensures key in RegisterAll(st, drafts).alignments
    ensures var r := RegisterAll(st, drafts).alignments[key];
            r.lo == st.alignments[key].lo && r.hi == st.alignments[key].hi
            && r.proximity == st.alignments[key].proximity
    decreases |drafts|
  {
    if |drafts| > 0 {
      var init := drafts[..|drafts| - 1];
      RegisterAllKeepsPrior(st, init, key);
      RegisterAt(RegisterAll(st, init), drafts[|drafts| - 1], key);
    }
  }

  /** A new identity takes its ids and proximity labels from the first draft
      that has it; later drafts add only authorities and modes. */
  lemma {:induction false} RegisterAllFirst(st: State, drafts: seq<Alignment>, key: string)
    requires key in RegisterAll(st, drafts).alignments && key !in st.alignments
    ensures var first := FirstWithIdentity(drafts, key);
            var r := RegisterAll(st, drafts).alignments[key];
            && first.Some?
            && r.lo == drafts[first.value].lo && r.hi == drafts[first.value].hi
            && r.proximity == drafts[first.value].proximity
    decreases |drafts|
  {
    var n := |drafts| - 1;
    if |drafts| == 0 {
      assert false;
    }
    var init := drafts[..n];
    var last := drafts[n];
    var prev := RegisterAll(st, init);
    RegisterAt(prev, last, key);
    if key in prev.alignments {
      RegisterAllFirst(st, init, key);
      var p := FirstWithIdentity(init, key).value;
      assert init[p] == drafts[p];
    } else {
      NoneBefore(st, init, key);
    }
  }

  /** An identity that registration has not stored was in no draft. */
  lemma {:induction false} NoneBefore(st: State, drafts: seq<Alignment>, key: string)
    requires key !in RegisterAll(st, drafts).alignments
    ensures key !in st.alignments
    ensures DraftAuthorities(drafts, key) == {} && DraftModes(drafts, key) == {}
    ensures FirstWithIdentity(drafts, key).None?
    decreases |drafts|
  {
    if |drafts| > 0 {
      var init := drafts[..|drafts| - 1];
      RegisterAt(RegisterAll(st, init), drafts[|drafts| - 1], key);
      NoneBefore(st, init, key);
    }
  }

  /** Registering drafts that all carry mode `m` adds exactly their
      identities to the bucket of `m`. */
  lemma {:induction false} RegisterAllModeBucket(st: State, drafts: seq<Alignment>, m: Mode)
    requires m in st.byMode
    requires forall i :: 0 <= i < |drafts| ==> m in drafts[i].modes
    ensures m in RegisterAll(st, drafts).byMode
    ensures RegisterAll(st, drafts).byMode[m] == st.byMode[m] + Identities(drafts)
    decreases |drafts|
  {
    if |drafts| > 0 {
      var init := drafts[..|drafts| - 1];
      var last := drafts[|drafts| - 1];
      RegisterAllModeBucket(st, init, m);
      IdentitiesSnoc(drafts);
      RegisterModeBucket(RegisterAll(st, init), last, m);
    }
  }

  /** One registration adds the draft's identity to the bucket of each of
      its modes and changes no bucket otherwise. */
  lemma RegisterModeBucket(st: State, draft: Alignment, m: Mode)
    requires m in st.byMode && m in draft.modes
    ensures m in Register(st, draft).byMode
    ensures Register(st, draft).byMode[m] == st.byMode[m] + {Identity(draft)}
  {
    var stored := Stored(st, draft);
    assert m in stored.modes;
    var r := Register(st, draft).byMode;
    forall h | h in r[m]
      ensures h in st.byMode[m] + {Identity(draft)}
    {
      AddUnderHas(st.byMode, stored.modes, Identity(draft), m, h);
    }
  }
}
