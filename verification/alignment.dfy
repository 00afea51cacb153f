/** The `Alignment` record of `src/pleiades_aligner/aligner.py`: an unordered
    pair of qualified ids `"ns:id"` with growing sets of authorities, modes and
    proximity labels, and namespace sets derived from the ids and authorities.

    The Python object keeps the two ids as a set; the model keeps them as the
    ordered pair `lo`, `hi` with `lo <= hi` in Python's string order, so that
    `Alignment(a, b, ...)` and `Alignment(b, a, ...)` are the same value.
 */
module Alignments {
  import opened Wrappers
  import opened Strings

  /** The supported alignment modes. */
  datatype Mode = Assertion | Proximity | Inference

  const AllModes: set<Mode> := {Assertion, Proximity, Inference}

  function ModeName(m: Mode): string
  {
    match m
    case Assertion => "assertion"
    case Proximity => "proximity"
    case Inference => "inference"
  }

  /** The membership test against `supported_modes`: a mode name outside
      the vocabulary is a `ValueError`. */
  function ParseMode(name: string): (r: Result<Mode>)
    ensures r.Ok? <==> name in {"assertion", "proximity", "inference"}
    ensures r.Ok? ==> ModeName(r.value) == name
    ensures r.Err? ==> r.error.ValueError?
  {
    if name == "assertion" then Ok(Assertion)
    else if name == "proximity" then Ok(Proximity)
    else if name == "inference" then Ok(Inference)
    else Err(ValueError("Unsupported alignment mode '" + name + "'"))
  }

  /** Parsing inverts naming. */
  lemma ParseModeName(m: Mode)
    ensures ParseMode(ModeName(m)) == Ok(m)
  {
  }

  /** Python truthiness of an optional string argument (`None` and `""`
      are false). */
  predicate Truthy(s: Option<string>)
  {
    s.Some? && s.value != ""
  }

  function AsSet(s: Option<string>): (r: set<string>)
    ensures Truthy(s) ==> r == {s.value}
    ensures !Truthy(s) ==> r == {}
  {
    if Truthy(s) then {s.value} else {}
  }

  /** The namespaces (text before the first `:`) of a set of ids. */
  function Namespaces(ids: set<string>): set<string>
  {
    set id | id in ids :: NamespaceOf(id)
  }

  /** The namespaces of a union are the union of the namespaces. */
  lemma NamespacesUnion(a: set<string>, b: set<string>)
    ensures Namespaces(a + b) == Namespaces(a) + Namespaces(b)
  {
    forall ns | ns in Namespaces(a + b)
      ensures ns in Namespaces(a) + Namespaces(b)
    {
      var id :| id in a + b && NamespaceOf(id) == ns;
    }
  }

  datatype Alignment = Alignment(
    lo: string,
    hi: string,
    idNamespaces: set<string>,
    authorities: set<string>,
    authorityNamespaces: set<string>,
    modes: set<Mode>,
    proximity: set<string>)
  {
    /** The aligned ids as a set (one element for a self-pair). */
    function Ids(): set<string>
    {
      {lo, hi}
    }

    /** The `aligned_ids` property: the ids sorted, without repetition. */
    function AlignedIds(): (r: seq<string>)
      ensures LessEq(lo, hi) ==> forall i, j :: 0 <= i < j < |r| ==> Less(r[i], r[j])
      ensures forall x :: x in r <==> x in Ids()
      ensures |r| == |Ids()|
    {
      if lo == hi then [lo] else [lo, hi]
    }
  }

  /** The derived fields agree with the ids and authorities, and the pair is
      stored in order. */
  predicate WellFormed(a: Alignment)
  {
    && LessEq(a.lo, a.hi)
    && a.idNamespaces == Namespaces(a.Ids())
    && a.authorityNamespaces == Namespaces(a.authorities)
  }

  /** The two ids in Python's sorted order. */
  function Ordered(x: string, y: string): (r: (string, string))
    ensures {r.0, r.1} == {x, y}
    ensures LessEq(r.0, r.1)
  {
    if LessEq(x, y) then (x, y)
    else
      LessTotal(x, y);
      (y, x)
  }

  lemma OrderedSymmetric(x: string, y: string)
    ensures Ordered(x, y) == Ordered(y, x)
  {
    if x != y {
      LessTotal(x, y);
      if Less(x, y) {
        LessAsymmetric(x, y);
      } else {
        LessAsymmetric(y, x);
      }
    }
  }

  /** The constructor once the mode is known to be supported. */
  function Make(id1: string, id2: string, mode: Mode, authority: Option<string>, prox: Option<string>): (a: Alignment)
    ensures WellFormed(a)
    ensures a.Ids() == {id1, id2}
    ensures a.modes == {mode}
    ensures a.authorities == AsSet(authority)
    ensures a.proximity == AsSet(prox)
  {
    var p := Ordered(id1, id2);
    var auth := AsSet(authority);
    Alignment(p.0, p.1, Namespaces({id1, id2}), auth, Namespaces(auth), {mode}, AsSet(prox))
  }

  /** `Alignment(id_1, id_2, mode, authority, proximity)`: the mode must be in
      the supported vocabulary, otherwise the constructor raises
      `ValueError`; a falsy authority or proximity contributes nothing. Self
      pairs (`id_1 == id_2`) are accepted. */
  function NewAlignment(id1: string, id2: string, mode: string, authority: Option<string>, prox: Option<string>): (r: Result<Alignment>)
    ensures r.Ok? <==> mode in {"assertion", "proximity", "inference"}
    ensures r.Err? ==> r.error.ValueError?
    ensures r.Ok? ==> WellFormed(r.value)
    ensures r.Ok? ==> r.value.Ids() == {id1, id2}
    ensures r.Ok? ==> |r.value.modes| == 1 && ModeName(PickMode(r.value.modes)) == mode
    ensures r.Ok? ==> r.value.authorities == AsSet(authority) && r.value.proximity == AsSet(prox)
  {
    var m :- ParseMode(mode);
    Ok(Make(id1, id2, m, authority, prox))
  }

  /** The single member of a one-mode set. */
  function PickMode(modes: set<Mode>): Mode
    requires |modes| == 1
  {
    if Assertion in modes then Assertion
    else if Proximity in modes then Proximity
    else
      assert Inference in modes by {
        var m :| m in modes;
        assert m.Inference?;
      }
      Inference
  }

  /** Construction does not depend on argument order. */
  lemma NewAlignmentSymmetric(id1: string, id2: string, mode: string, authority: Option<string>, prox: Option<string>)
    ensures NewAlignment(id1, id2, mode, authority, prox) == NewAlignment(id2, id1, mode, authority, prox)
  {
    OrderedSymmetric(id1, id2);
    assert {id1, id2} == {id2, id1};
  }

  /** The separator of the identity string. */
  const Separator: string := " >< "

  /** `repr(alignment)`: the sorted ids joined by `" >< "`. Hashing and
      deduplication use this string and nothing else. */
  function Identity(a: Alignment): (r: string)
  {
    if a.lo == a.hi then a.lo else a.lo + Separator + a.hi
  }

  /** The identity is `" >< ".join(aligned_ids)`. */
  lemma IdentityIsJoin(a: Alignment)
    ensures Identity(a) == Join(a.AlignedIds(), Separator)
  {
    JoinTwo(a.lo, a.hi, Separator);
  }

  /** Identity depends on the two ids only: whatever the modes, authorities
      and labels, and in either argument order. */
  lemma IdentityIgnoresEvidence(id1: string, id2: string,
                                m1: Mode, auth1: Option<string>, prox1: Option<string>,
                                m2: Mode, auth2: Option<string>, prox2: Option<string>)
    ensures Identity(Make(id1, id2, m1, auth1, prox1)) == Identity(Make(id2, id1, m2, auth2, prox2))
  {
    OrderedSymmetric(id1, id2);
  }

  /** Two well-formed alignments with the same ids have the same identity. */
  lemma SameIdsSameIdentity(a: Alignment, b: Alignment)
    requires WellFormed(a) && WellFormed(b)
    requires a.Ids() == b.Ids()
    ensures Identity(a) == Identity(b)
  {
    if a.lo != b.lo {
      assert a.lo == b.hi && a.hi == b.lo;
      LessAsymmetric(a.lo, a.hi);
    }
  }

  /** When no id contains a space, the identity string determines the ids:
      distinct pairs never share an identity. */
  lemma IdentityInjective(a: Alignment, b: Alignment)
    requires WellFormed(a) && WellFormed(b)
    requires ' ' !in a.lo && ' ' !in a.hi && ' ' !in b.lo && ' ' !in b.hi
    requires Identity(a) == Identity(b)
    ensures a.Ids() == b.Ids()
  {
    var s := Identity(a);
    JoinTwo(a.lo, a.hi, Separator);
    assert a.lo != a.hi ==> s == a.lo + Separator + a.hi && s[|a.lo|] == ' ';
    assert b.lo != b.hi ==> s == b.lo + Separator + b.hi && s[|b.lo|] == ' ';
    assert a.lo == a.hi ==> s == a.lo;
    assert b.lo == b.hi ==> s == b.lo;
    if a.lo != a.hi && b.lo != b.hi {
      FirstSpace(a.lo, a.hi, b.lo, b.hi);
    }
  }

  lemma JoinTwo(x: string, y: string, sep: string)
    ensures Join([x, y], sep) == x + sep + y
    ensures |sep| > 0 ==> (x + sep + y)[|x|] == sep[0]
  {
    assert [x, y][1..] == [y];
  }

  /** The first space of `x + " >< " + y` is at `|x|` when `x` has none. */
  lemma FirstSpace(x: string, y: string, u: string, v: string)
    requires ' ' !in x && ' ' !in y && ' ' !in u && ' ' !in v
    requires x + Separator + y == u + Separator + v
    ensures x == u && y == v
  {
    var s := x + Separator + y;
    assert s[|x|] == ' ' && s == u + Separator + v && s[|u|] == ' ';
    assert forall k :: 0 <= k < |x| ==> s[k] == x[k];
    assert forall k :: 0 <= k < |u| ==> s[k] == u[k];
    assert |x| == |u|;
    assert x == s[..|x|] == u;
    assert y == s[|x| + 4..] == v;
  }

  /** With ids that contain the separator, two different pairs can share an
      identity: the self-pair of `"p:a >< q:b"` collides with the pair of
      `"p:a"` and `"q:b"`. */
  lemma IdentityCollision()
    ensures var a := Make("p:a >< q:b", "p:a >< q:b", Assertion, None, None);
            var b := Make("p:a", "q:b", Assertion, None, None);
            Identity(a) == Identity(b) && a.Ids() != b.Ids()
  {
    var b := Make("p:a", "q:b", Assertion, None, None);
    assert Less("p:a", "q:b");
    assert b.lo == "p:a" && b.hi == "q:b";
    assert b.Ids() == {"p:a", "q:b"};
    assert "p:a >< q:b" !in b.Ids();
  }

  /** `add_authority`: insert the authority and its namespace. */
  function AddAuthority(a: Alignment, authority: string): (r: Alignment)
    ensures WellFormed(a) ==> WellFormed(r)
    ensures r.authorities == a.authorities + {authority}
    ensures r == a.(authorities := r.authorities, authorityNamespaces := r.authorityNamespaces)
    ensures WellFormed(a) && authority in a.authorities ==> r == a
  {
    a.(authorities := a.authorities + {authority},
       authorityNamespaces := a.authorityNamespaces + {NamespaceOf(authority)})
  }

  /** `add_mode`: an unsupported mode name is a `ValueError`, otherwise the
      mode is inserted and nothing else changes. */
  function AddMode(a: Alignment, mode: string): (r: Result<Alignment>)
    ensures r.Ok? <==> mode in {"assertion", "proximity", "inference"}
    ensures r.Err? ==> r.error.ValueError?
    ensures r.Ok? ==> r.value.modes == a.modes + {ParseMode(mode).value}
    ensures r.Ok? ==> r.value == a.(modes := r.value.modes)
    ensures r.Ok? && ParseMode(mode).value in a.modes ==> r.value == a
  {
    var m :- ParseMode(mode);
    Ok(a.(modes := a.modes + {m}))
  }

  /** `add_proximity`: insert one prox. */
  function AddProximity(a: Alignment, prox: string): (r: Alignment)
    ensures r.proximity == a.proximity + {prox}
    ensures r == a.(proximity := r.proximity)
    ensures prox in a.proximity ==> r == a
  {
    a.(proximity := a.proximity + {prox})
  }

  /** `update_proximity`: insert several labels. */
  function UpdateProximity(a: Alignment, labels: set<string>): (r: Alignment)
    ensures r.proximity == a.proximity + labels
    ensures r == a.(proximity := r.proximity)
    ensures labels <= a.proximity ==> r == a
  {
    a.(proximity := a.proximity + labels)
  }

  /** The plain record produced by `asdict`. The namespaces are listed in set
      order, so the model keeps them as a set. */
  datatype AlignmentDict = AlignmentDict(
    alignedIds: seq<string>,
    alignedNamespaces: set<string>,
    authorities: seq<string>,
    hash: string,
    modes: seq<string>,
    proximity: Option<string>)

  /** Mode names in sorted order: "assertion" < "inference" < "proximity". */
  function SortedModeNames(modes: set<Mode>): (r: seq<string>)
    ensures forall i, j :: 0 <= i < j < |r| ==> Less(r[i], r[j])
    ensures forall x :: x in r <==> exists m :: m in modes && ModeName(m) == x
  {
    assert Less("assertion", "inference") && Less("inference", "proximity");
    LessTransitive("assertion", "inference", "proximity");
    (if Assertion in modes then ["assertion"] else [])
    + (if Inference in modes then ["inference"] else [])
    + (if Proximity in modes then ["proximity"] else [])
  }

  /** `asdict`: sorted ids, namespaces, sorted authorities, the identity as the
      hash, sorted mode names, and a proximity prox only when the proximity
      mode is present and some prox is recorded. Python takes the first prox
      in set order; the model takes the least, which is the same prox
      whenever at most one is recorded. */
  ghost function AsDict(a: Alignment): (d: AlignmentDict)
    requires WellFormed(a)
    ensures d.alignedIds == a.AlignedIds()
    ensures d.alignedNamespaces == a.idNamespaces
    ensures forall i, j :: 0 <= i < j < |d.authorities| ==> Less(d.authorities[i], d.authorities[j])
    ensures forall x :: x in d.authorities <==> x in a.authorities
    ensures d.hash == Identity(a)
    ensures forall x :: x in d.modes <==> exists m :: m in a.modes && ModeName(m) == x
    ensures d.proximity.Some? <==> Proximity in a.modes && a.proximity != {}
    ensures d.proximity.Some? ==> d.proximity.value in a.proximity
    ensures |a.proximity| == 1 && Proximity in a.modes ==> a.proximity == {d.proximity.value}
  {
    var prox := if Proximity in a.modes && a.proximity != {} then Some(SortedOf(a.proximity)[0]) else None;
    SingletonOf(a.proximity);
    AlignmentDict(a.AlignedIds(), a.idNamespaces, SortedOf(a.authorities), Identity(a),
                  SortedModeNames(a.modes), prox)
  }

  lemma SingletonOf<T>(s: set<T>)
    ensures |s| == 1 ==> forall x :: x in s ==> s == {x}
  {
    if |s| == 1 {
      var y :| y in s;
      assert |s - {y}| == 0;
      assert s == {y};
    }
  }

  /** A strictly increasing listing of a finite set of strings (Python
      `sorted(s)`). */
  ghost function SortedOf(s: set<string>): (r: seq<string>)
    ensures forall i, j :: 0 <= i < j < |r| ==> Less(r[i], r[j])
    ensures forall x :: x in r <==> x in s
    ensures |r| == |s|
    decreases |s|
  {
    if s == {} then []
    else
      MinimumExists(s);
      var m :| IsLeast(m, s);
      var rest := SortedOf(s - {m});
      assert forall k :: 0 <= k < |rest| ==> rest[k] in s - {m} && Less(m, rest[k]);
      [m] + rest
  }

  /** `m` is the least element of `s`. */
  predicate IsLeast(m: string, s: set<string>)
  {
    m in s && forall x :: x in s ==> LessEq(m, x)
  }

  lemma MinimumExists(s: set<string>)
    requires s != {}
    ensures exists m :: IsLeast(m, s)
  {
    var m := Minimum(s);
  }

  lemma {:induction false} Minimum(s: set<string>) returns (m: string)
    requires s != {}
    ensures IsLeast(m, s)
    decreases |s|
  {
    var y :| y in s;
    var rest := s - {y};
    if rest == {} {
      m := y;
      assert s == {y};
    } else {
      var r := Minimum(rest);
      if LessEq(r, y) {
        m := r;
        LeastOfInsert(r, y, rest);
      } else {
        m := y;
        LessTotal(y, r);
        LeastBelowLeast(y, r, rest);
      }
    }
  }

  lemma LeastOfInsert(m: string, y: string, rest: set<string>)
    requires IsLeast(m, rest) && LessEq(m, y)
    ensures IsLeast(m, rest + {y})
  {
  }

  lemma LeastBelowLeast(y: string, m: string, rest: set<string>)
    requires IsLeast(m, rest) && Less(y, m)
    ensures IsLeast(y, rest + {y})
  {
    forall x | x in rest + {y}
      ensures LessEq(y, x)
    {
      if x != y && x != m {
        LessTransitive(y, m, x);
      }
    }
  }
}
