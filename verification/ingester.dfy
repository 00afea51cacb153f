/** The record helpers of `src/pleiades_aligner/ingester.py`: guessing CSV
    fields, cleaning ids, disambiguating repeated headers, reading
    alignments, names and feature types out of a place's raw properties,
    and turning CSV rows into places.

    The text normaliser `normalize_space(normalize_unicode(.))` is a foreign
    call and is a parameter `norm` here; a CSV row is a map from field name
    to cell text.
 */
module Ingester {
  import opened Wrappers
  import opened Strings

  /** A raw property value: CSV cells are text, JSON-derived properties may
      be lists, and merged non-unique rows may hold sets. `Null` is
      Python's `None`. */
  datatype Raw = Null | Text(s: string) | List(items: seq<string>) | Group(members: set<string>)

  /** Python truthiness of a raw value. */
  predicate Falsy(v: Raw)
  {
    match v
    case Null => true
    case Text(s) => s == ""
    case List(xs) => xs == []
    case Group(xs) => xs == {}
  }

  /** `Point([lon, lat])` from the two cell texts; its geometry is not
      modelled. */
  datatype Point = Point(lon: string, lat: string)

  /** The fields of a place the ingester fills in. */
  datatype Place = Place(
    id: string,
    rawProperties: map<string, Raw>,
    geometries: seq<Point>,
    alignments: set<string>,
    names: set<string>,
    featureTypes: set<string>)

  function NewPlace(id: string): Place
  {
    Place(id, map[], [], {}, {}, {})
  }

  type Row = map<string, string>

  type Normaliser = string -> string

  /** `_norm_string`: a falsy string normalises to `""` without calling the
      normaliser. */
  function NormString(norm: Normaliser, s: string): (r: string)
    ensures s == "" ==> r == ""
    ensures s != "" ==> r == norm(s)
  {
    if s == "" then "" else norm(s)
  }

  // ---------------------------------------------------------------------
  // Field guessing

  const IdGuesses: seq<string> := ["id", "Object ID", "item"]
  const LatitudeGuesses: seq<string> := ["lat", "latitude"]
  const LongitudeGuesses: seq<string> := ["lon", "long", "longitude"]

  /** A field name and a candidate agree once both are lowered. */
  predicate Matches(field: string, candidate: string)
  {
    Lower(field) == Lower(candidate)
  }

  /** `lower_fieldnames.index(fn)`: the first position of a field matching
      the candidate. */
  function IndexOf(fieldnames: seq<string>, candidate: string): (r: Option<nat>)
    ensures r.Some? ==> r.value < |fieldnames| && Matches(fieldnames[r.value], candidate)
    ensures r.Some? ==> forall i :: 0 <= i < r.value ==> !Matches(fieldnames[i], candidate)
    ensures r.None? <==> forall i :: 0 <= i < |fieldnames| ==> !Matches(fieldnames[i], candidate)
  {
    if |fieldnames| == 0 then None
    else if Matches(fieldnames[0], candidate) then Some(0)
    else
      var r := IndexOf(fieldnames[1..], candidate);
      assert forall i :: 1 <= i < |fieldnames| ==> fieldnames[i] == fieldnames[1..][i - 1];
      if r.Some? then Some(r.value + 1) else None
  }

  /** `_guess_csv_field`: the field (in its own case) matching the earliest
      candidate that matches any field, in candidate order; `None` when no
      candidate matches. */
  function GuessCsvField(fieldnames: seq<string>, candidates: seq<string>): (r: Option<string>)
    ensures r.None? <==> forall j, i :: 0 <= j < |candidates| && 0 <= i < |fieldnames| ==> !Matches(fieldnames[i], candidates[j])
    ensures r.Some? ==> exists j :: 0 <= j < |candidates| && GuessedAt(fieldnames, candidates, j, r.value)
  {
    if |candidates| == 0 then None
    else
      var i := IndexOf(fieldnames, candidates[0]);
      if i.Some? then
        assert GuessedAt(fieldnames, candidates, 0, fieldnames[i.value]);
        Some(fieldnames[i.value])
      else
        var r := GuessCsvField(fieldnames, candidates[1..]);
        assert forall j :: 1 <= j < |candidates| ==> candidates[j] == candidates[1..][j - 1];
        if r.Some? then
          var j :| 0 <= j < |candidates| - 1 && GuessedAt(fieldnames, candidates[1..], j, r.value);
          assert GuessedAt(fieldnames, candidates, j + 1, r.value);
          r
        else r
  }

  /** `field` is what the guess returns for candidate `j`: no earlier
      candidate matches any field, and `field` is the first field matching
      candidate `j`. */
  predicate GuessedAt(fieldnames: seq<string>, candidates: seq<string>, j: nat, field: string)
    requires j < |candidates|
  {
    && (forall j', i :: 0 <= j' < j && 0 <= i < |fieldnames| ==> !Matches(fieldnames[i], candidates[j']))
    && exists i :: 0 <= i < |fieldnames| && fieldnames[i] == field && Matches(field, candidates[j])
                   && forall i' :: 0 <= i' < i ==> !Matches(fieldnames[i'], candidates[j])
  }

  /** The guess is case-insensitive in the candidates and returns the
      field name with its original case. */
  lemma GuessCaseInsensitive(fieldnames: seq<string>, candidates: seq<string>)
    ensures GuessCsvField(fieldnames, candidates) == GuessCsvField(fieldnames, LowerAll(candidates))
    ensures GuessCsvField(fieldnames, candidates).Some? ==> GuessCsvField(fieldnames, candidates).value in fieldnames
  {
    var lowered := LowerAll(candidates);
    forall j, i | 0 <= j < |candidates| && 0 <= i < |fieldnames|
      ensures Matches(fieldnames[i], candidates[j]) <==> Matches(fieldnames[i], lowered[j])
    {
      LowerIdempotent(candidates[j]);
    }
    GuessSameMatches(fieldnames, candidates, lowered);
  }

  function LowerAll(xs: seq<string>): (r: seq<string>)
    ensures |r| == |xs| && forall i :: 0 <= i < |xs| ==> r[i] == Lower(xs[i])
  {
    seq(|xs|, i requires 0 <= i < |xs| => Lower(xs[i]))
  }

  /** Two candidate lists that match the same fields position by position
      guess the same field. */
  lemma {:induction false} GuessSameMatches(fieldnames: seq<string>, cs: seq<string>, ds: seq<string>)
    requires |cs| == |ds|
    requires forall j, i :: 0 <= j < |cs| && 0 <= i < |fieldnames| ==>
      (Matches(fieldnames[i], cs[j]) <==> Matches(fieldnames[i], ds[j]))
    ensures GuessCsvField(fieldnames, cs) == GuessCsvField(fieldnames, ds)
  {
    if |cs| > 0 {
      var a := IndexOf(fieldnames, cs[0]);
      var b := IndexOf(fieldnames, ds[0]);
      if a.None? && b.None? {
        GuessSameMatches(fieldnames, cs[1..], ds[1..]);
      }
    }
  }

  // ---------------------------------------------------------------------
  // Id cleaning

  /** Python's `s[n:]`: empty once `n` passes the end. */
  function DropPrefix(s: string, n: nat): (r: string)
    ensures n <= |s| ==> r == s[n..]
    ensures n > |s| ==> r == ""
  {
    if n <= |s| then s[n..] else ""
  }

  /** `_clean_id`: apply each configured action in order; `"strip-prefix"`
      drops as many leading characters as its value has, whether or not
      they are that value, and any other action is a
      `NotImplementedError`. */
  function CleanId(raw: string, actions: seq<(string, string)>): (r: Result<string>)
    ensures actions == [] ==> r == Ok(raw)
    ensures r.Err? <==> exists i :: 0 <= i < |actions| && actions[i].0 != "strip-prefix"
    ensures r.Err? ==> r.error.NotImplementedError?
    ensures r.Ok? ==> |r.value| <= |raw|
    decreases |actions|
  {
    if |actions| == 0 then Ok(raw)
    else if actions[0].0 != "strip-prefix" then Err(NotImplementedError(actions[0].0))
    else
      assert forall i :: 1 <= i < |actions| ==> actions[i] == actions[1..][i - 1];
      CleanId(DropPrefix(raw, |actions[0].1|), actions[1..])
  }

  /** Stripping a prefix that is present gives back the rest of the id:
      prefix and cleaned id concatenate to the raw id. */
  lemma StripPrefixInverse(prefix: string, local: string)
    ensures CleanId(prefix + local, [("strip-prefix", prefix)]) == Ok(local)
  {
    assert (prefix + local)[|prefix|..] == local;
  }

  /** The prefix is not checked: any id loses the same number of
      characters. */
  lemma StripPrefixUnchecked(raw: string, prefix: string)
    requires |prefix| <= |raw|
    ensures CleanId(raw, [("strip-prefix", prefix)]) == Ok(raw[|prefix|..])
    ensures |CleanId(raw, [("strip-prefix", prefix)]).value| == |raw| - |prefix|
  {
  }

  // ---------------------------------------------------------------------
  // Repeated headers

  /** The stripped, comma-separated headers of the first line. */
  function Headers(firstLine: string): (r: seq<string>)
    ensures |r| == |Split(firstLine, ',')|
    ensures forall i :: 0 <= i < |r| ==> r[i] == Strip(Split(firstLine, ',')[i])
  {
    var parts := Split(firstLine, ',');
    seq(|parts|, i requires 0 <= i < |parts| => Strip(parts[i]))
  }

  /** `Counter(headers)[h]`. */
  function Count(headers: seq<string>, h: string): nat
  {
    multiset(headers)[h]
  }

  /** `h_0, ..., h_{k-1}`. */
  function Numbered(h: string, k: nat): (r: seq<string>)
    ensures |r| == k
    ensures forall j :: 0 <= j < k ==> r[j] == h + "_" + Decimal(j)
  {
    seq(k, j requires 0 <= j < k => h + "_" + Decimal(j))
  }

  /** The numbered copies of a header are pairwise distinct names. */
  lemma NumberedDistinct(h: string, k: nat)
    ensures forall i, j :: 0 <= i < j < k ==> Numbered(h, k)[i] != Numbered(h, k)[j]
  {
    var p := h + "_";
    forall i, j | 0 <= i < j < k
      ensures Numbered(h, k)[i] != Numbered(h, k)[j]
    {
      if Numbered(h, k)[i] == Numbered(h, k)[j] {
        assert (p + Decimal(i))[|p|..] == Decimal(i);
        assert (p + Decimal(j))[|p|..] == Decimal(j);
        DecimalInjective(i, j);
      }
    }
  }

  /** What the renaming loop emits at position `k`: nothing for a header
      seen before, the header for one occurring once, its numbered copies
      for a repeated one. */
  function Here(headers: seq<string>, k: nat): seq<string>
    requires k < |headers|
  {
    var h := headers[k];
    if h in headers[..k] then []
    else if Count(headers, h) == 1 then [h]
    else Numbered(h, Count(headers, h))
  }

  /** The renaming loop from position `i` on. */
  function RenameFrom(headers: seq<string>, i: nat): seq<string>
    requires i <= |headers|
    decreases |headers| - i
  {
    if i == |headers| then [] else Here(headers, i) + RenameFrom(headers, i + 1)
  }

  predicate HasRepeat(headers: seq<string>)
  {
    exists i :: 0 <= i < |headers| && Count(headers, headers[i]) > 1
  }

  /** The field names `_detect_redundant_fieldnames` builds from the first
      line: the headers unchanged when none repeats, otherwise renamed. */
  function RenameHeaders(firstLine: string): seq<string>
  {
    RenameList(Headers(firstLine))
  }

  /** The renaming of a header list: unchanged when no header repeats. */
  function RenameList(headers: seq<string>): seq<string>
  {
    if HasRepeat(headers) then RenameFrom(headers, 0) else headers
  }

  /** The headers of `xs` not in `seen`, in order. */
  function Fresh(xs: seq<string>, seen: set<string>): seq<string>
  {
    if |xs| == 0 then []
    else (if xs[0] in seen then [] else [xs[0]]) + Fresh(xs[1..], seen)
  }

  /** Marking one more header as seen removes exactly its occurrences. */
  lemma {:induction false} FreshSee(xs: seq<string>, seen: set<string>, h: string)
    requires h !in seen
    ensures |Fresh(xs, seen)| == |Fresh(xs, seen + {h})| + multiset(xs)[h]
  {
    if |xs| > 0 {
      FreshSee(xs[1..], seen, h);
      assert xs == [xs[0]] + xs[1..];
      assert multiset(xs) == multiset{xs[0]} + multiset(xs[1..]);
    }
  }

  lemma {:induction false} FreshNone(xs: seq<string>)
    ensures Fresh(xs, {}) == xs
  {
    if |xs| > 0 {
      FreshNone(xs[1..]);
      assert xs == [xs[0]] + xs[1..];
    }
  }

  /** The headers before `i`, as a set. */
  function Handled(headers: seq<string>, i: nat): (r: set<string>)
    requires i <= |headers|
    ensures forall x :: x in r <==> x in headers[..i]
  {
    set x | x in headers[..i]
  }

  lemma HandledStep(headers: seq<string>, i: nat)
    requires i < |headers|
    ensures Handled(headers, i + 1) == Handled(headers, i) + {headers[i]}
  {
    assert headers[..i + 1] == headers[..i] + [headers[i]];
  }

  /** A header first seen at `i` occurs once there and otherwise only
      after it. */
  lemma CountFirst(headers: seq<string>, i: nat)
    requires i < |headers| && headers[i] !in headers[..i]
    ensures Count(headers, headers[i]) == 1 + multiset(headers[i + 1..])[headers[i]]
  {
    assert headers == headers[..i] + [headers[i]] + headers[i + 1..];
    assert multiset(headers) == multiset(headers[..i]) + multiset{headers[i]} + multiset(headers[i + 1..]);
  }

  /** From position `i` on, the renaming emits one name per occurrence of
      every header not handled before `i`. */
  lemma {:induction false} RenameFromLength(headers: seq<string>, i: nat)
    requires i <= |headers|
    ensures |RenameFrom(headers, i)| == |Fresh(headers[i..], Handled(headers, i))|
    decreases |headers| - i
  {
    if i < |headers| {
      var h := headers[i];
      var seen := Handled(headers, i);
      var rest := headers[i + 1..];
      assert |Fresh(headers[i..], seen)| == (if h in seen then 0 else 1) + |Fresh(rest, seen)| by {
        assert headers[i..][0] == h && headers[i..][1..] == rest;
      }
      RenameFromLength(headers, i + 1);
      if h !in seen {
        assert Handled(headers, i + 1) == seen + {h} by { HandledStep(headers, i); }
        assert |Fresh(rest, seen)| == |Fresh(rest, seen + {h})| + multiset(rest)[h] by { FreshSee(rest, seen, h); }
        assert |Here(headers, i)| == 1 + multiset(rest)[h] by { CountFirst(headers, i); }
      } else {
        assert Here(headers, i) == [];
        assert Handled(headers, i + 1) == seen by { HandledStep(headers, i); }
      }
    } else {
      assert headers[i..] == [];
    }
  }

  /** Renaming keeps the number of fields: every occurrence of a repeated
      header gets its own numbered name. */
  lemma RenameHeadersLength(firstLine: string)
    ensures |RenameHeaders(firstLine)| == |Headers(firstLine)|
  {
    var headers := Headers(firstLine);
    RenameFromLength(headers, 0);
    assert Handled(headers, 0) == {};
    assert headers[0..] == headers;
    FreshNone(headers);
  }

  /** Everything emitted at a position at or after `i` is in the output
      from `i` on. */
  lemma {:induction false} RenameFromHas(headers: seq<string>, i: nat, k: nat, x: string)
    requires i <= k < |headers| && x in Here(headers, k)
    ensures x in RenameFrom(headers, i)
    decreases k - i
  {
    if i < k {
      RenameFromHas(headers, i + 1, k, x);
    }
  }

  /** The first position of `x` in `xs`. */
  function Position(xs: seq<string>, x: string): (r: nat)
    requires x in xs
    ensures r < |xs| && xs[r] == x && x !in xs[..r]
  {
    if xs[0] == x then 0
    else
      var r := Position(xs[1..], x);
      assert xs[..r + 1] == [xs[0]] + xs[1..][..r];
      r + 1
  }

  /** The renamed headers keep every unique header and number every
      repeated one. */
  lemma RenameHeadersNames(firstLine: string, h: string)
    requires h in Headers(firstLine)
    ensures Count(Headers(firstLine), h) == 1 ==> h in RenameHeaders(firstLine)
    ensures Count(Headers(firstLine), h) > 1 ==>
      forall x :: x in Numbered(h, Count(Headers(firstLine), h)) ==> x in RenameHeaders(firstLine)
  {
    var headers := Headers(firstLine);
    var k := Position(headers, h);
    if HasRepeat(headers) {
      forall x | x in Here(headers, k)
        ensures x in RenameFrom(headers, 0)
      {
        RenameFromHas(headers, 0, k, x);
      }
    }
  }

  /** Without a repeated header the headers are returned as they are. */
  lemma RenameHeadersUnique(firstLine: string)
    requires forall i, j :: 0 <= i < j < |Headers(firstLine)| ==> Headers(firstLine)[i] != Headers(firstLine)[j]
    ensures RenameHeaders(firstLine) == Headers(firstLine)
  {
    var headers := Headers(firstLine);
    forall i | 0 <= i < |headers|
      ensures Count(headers, headers[i]) <= 1
    {
      DistinctCount(headers, headers[i]);
    }
  }

  /** What the renaming loop has emitted before position `p`. */
  function Emitted(headers: seq<string>, p: nat): seq<string>
    requires p <= |headers|
  {
    if p == 0 then [] else Emitted(headers, p - 1) + Here(headers, p - 1)
  }

  /** The renamed headers are what the loop emits before `p`, followed by
      what it emits from `p` on. */
  lemma {:induction false} RenameFromSplit(headers: seq<string>, p: nat)
    requires p <= |headers|
    ensures RenameFrom(headers, 0) == Emitted(headers, p) + RenameFrom(headers, p)
    decreases p
  {
    if p > 0 {
      RenameFromSplit(headers, p - 1);
      assert RenameFrom(headers, p - 1) == Here(headers, p - 1) + RenameFrom(headers, p);
      assert Emitted(headers, p - 1) + (Here(headers, p - 1) + RenameFrom(headers, p))
          == Emitted(headers, p) + RenameFrom(headers, p);
    }
  }

  /** The middle of `a + b + c`, cut at the lengths, is `b`. */
  lemma SliceMiddle(a: seq<string>, b: seq<string>, c: seq<string>)
    ensures |a| + |b| <= |a + b + c| && (a + b + c)[|a|..|a| + |b|] == b
  {
    assert forall i :: 0 <= i < |b| ==> (a + b + c)[|a| + i] == b[i];
  }

  /** At the first occurrence of a header the loop emits the header itself
      when it occurs once and `h_0, ..., h_{k-1}` when it occurs `k > 1`
      times; those names stand at that place in the renamed headers, and
      its later occurrences emit nothing. */
  lemma RenameFromAt(headers: seq<string>, p: nat)
    requires p < |headers| && headers[p] !in headers[..p]
    ensures Here(headers, p) ==
      if Count(headers, headers[p]) == 1 then [headers[p]] else Numbered(headers[p], Count(headers, headers[p]))
    ensures var q := |Emitted(headers, p)|;
      && q + |Here(headers, p)| <= |RenameFrom(headers, 0)|
      && RenameFrom(headers, 0)[q..q + |Here(headers, p)|] == Here(headers, p)
    ensures forall j :: p < j < |headers| && headers[j] == headers[p] ==> Here(headers, j) == []
  {
    RenameFromSplit(headers, p);
    assert RenameFrom(headers, p) == Here(headers, p) + RenameFrom(headers, p + 1);
    assert RenameFrom(headers, 0) == Emitted(headers, p) + Here(headers, p) + RenameFrom(headers, p + 1);
    SliceMiddle(Emitted(headers, p), Here(headers, p), RenameFrom(headers, p + 1));
    forall j | p < j < |headers| && headers[j] == headers[p]
      ensures Here(headers, j) == []
    {
      assert headers[..j][p] == headers[p];
    }
  }

  /** When some header repeats, the names a header emits at its first
      occurrence `p` stand at that place in the renamed list. */
  lemma RenameListAt(headers: seq<string>, p: nat)
    requires HasRepeat(headers)
    requires p < |headers| && headers[p] !in headers[..p]
    ensures var q := |Emitted(headers, p)|;
      && q + |Here(headers, p)| <= |RenameList(headers)|
      && RenameList(headers)[q..q + |Here(headers, p)|] == Here(headers, p)
  {
    RenameFromAt(headers, p);
  }

  lemma {:induction false} DistinctCount(xs: seq<string>, x: string)
    requires forall i, j :: 0 <= i < j < |xs| ==> xs[i] != xs[j]
    ensures multiset(xs)[x] <= 1
  {
    if |xs| > 0 {
      assert xs == [xs[0]] + xs[1..];
      DistinctCount(xs[1..], x);
      if xs[0] == x {
        assert x !in xs[1..];
      }
    }
  }

  // ---------------------------------------------------------------------
  // Alignments, names and feature types from raw properties

  /** The pieces of a raw value: a string is split on commas, a list or set
      is taken item by item. */
  function Pieces(v: Raw): set<string>
  {
    match v
    case Null => {}
    case Text(s) => set p | p in Split(s, ',')
    case List(xs) => set p | p in xs
    case Group(xs) => xs
  }

  /** A normalised value is kept when it is not empty and neither starts
      with `(` nor ends with `)`. */
  predicate Kept(c: string)
  {
    c != "" && !StartsWith(c, "(") && !EndsWith(c, ")")
  }

  /** The normalised, kept pieces of a raw value. */
  function Cleaned(v: Raw, norm: Normaliser): (r: set<string>)
    ensures forall c :: c in r ==> Kept(c)
  {
    set p | p in Pieces(v) && Kept(NormString(norm, p)) :: NormString(norm, p)
  }

  /** How an alignment field is read: the namespace of its targets and a
      prefix to strip (empty for none). */
  datatype FieldMeta = FieldMeta(namespace: string, prefix: string)

  /** A kept value becomes `namespace:<value without prefix>`; with a
      prefix configured, a value lacking it is ignored. */
  function Qualified(c: string, meta: FieldMeta): string
    requires StartsWith(c, meta.prefix)
  {
    meta.namespace + ":" + c[|meta.prefix|..]
  }

  function FieldAlignments(values: set<string>, meta: FieldMeta): set<string>
  {
    set c | c in values && StartsWith(c, meta.prefix) :: Qualified(c, meta)
  }

  /** The value of a listed property; a property the place lacks is a
      `KeyError`. */
  function Property(place: Place, field: string): (r: Result<Raw>)
    ensures r.Ok? <==> field in place.rawProperties
    ensures r.Ok? ==> r.value == place.rawProperties[field]
    ensures r.Err? ==> r.error == KeyError(field)
  {
    if field in place.rawProperties then Ok(place.rawProperties[field]) else Err(KeyError(field))
  }

  /** The alignment ids of one place over the configured fields, in order;
      a falsy value contributes nothing. */
  function PlaceAlignments(place: Place, fields: seq<(string, FieldMeta)>, norm: Normaliser): (r: Result<set<string>>)
    ensures r.Ok? <==> forall i :: 0 <= i < |fields| ==> fields[i].0 in place.rawProperties
    ensures r.Err? ==> r.error.KeyError?
  {
    if |fields| == 0 then Ok({})
    else
      assert forall i :: 1 <= i < |fields| ==> fields[i] == fields[1..][i - 1];
      var raw :- Property(place, fields[0].0);
      var rest :- PlaceAlignments(place, fields[1..], norm);
      Ok(Contribution(raw, fields[0].1, norm) + rest)
  }

  /** The ids one field contributes; a falsy value contributes nothing. */
  function Contribution(raw: Raw, meta: FieldMeta, norm: Normaliser): set<string>
  {
    if Falsy(raw) then {} else FieldAlignments(Cleaned(raw, norm), meta)
  }

  /** The alignment ids of a place are exactly the ids its fields
      contribute. */
  lemma {:induction false} PlaceAlignmentsMember(place: Place, fields: seq<(string, FieldMeta)>, norm: Normaliser, x: string)
    requires PlaceAlignments(place, fields, norm).Ok?
    ensures x in PlaceAlignments(place, fields, norm).value <==>
      exists i :: 0 <= i < |fields| && x in Contribution(place.rawProperties[fields[i].0], fields[i].1, norm)
  {
    if |fields| > 0 {
      PlaceAlignmentsMember(place, fields[1..], norm, x);
      assert forall i :: 1 <= i < |fields| ==> fields[i] == fields[1..][i - 1];
    }
  }

  /** A field contributes the qualified form of each normalised, kept
      piece of its value that carries the field's prefix. */
  lemma ContributionMember(v: Raw, meta: FieldMeta, norm: Normaliser, x: string)
    ensures x in Contribution(v, meta, norm) <==>
      exists p :: p in Pieces(v) && Kept(NormString(norm, p)) && StartsWith(NormString(norm, p), meta.prefix)
        && x == Qualified(NormString(norm, p), meta)
  {
    FalsyCleaned(v, norm);
    if x in FieldAlignments(Cleaned(v, norm), meta) {
      var c :| c in Cleaned(v, norm) && StartsWith(c, meta.prefix) && x == Qualified(c, meta);
      var p :| p in Pieces(v) && Kept(NormString(norm, p)) && c == NormString(norm, p);
    }
  }

  /** A falsy value has no kept piece. */
  lemma FalsyCleaned(v: Raw, norm: Normaliser)
    ensures Falsy(v) ==> Cleaned(v, norm) == {}
  {
    if Falsy(v) && v.Text? {
      assert Split(v.s, ',') == [""];
    }
  }

  /** Every alignment id read from a field is qualified by the field's
      namespace, and its local part with the prefix put back is the
      normalised value. */
  lemma QualifiedParts(c: string, meta: FieldMeta)
    requires StartsWith(c, meta.prefix) && ':' !in meta.namespace
    ensures NamespaceOf(Qualified(c, meta)) == meta.namespace
    ensures meta.prefix + Qualified(c, meta)[|meta.namespace| + 1..] == c
  {
    NamespaceOfQualified(meta.namespace, c[|meta.prefix|..]);
    assert Qualified(c, meta)[|meta.namespace| + 1..] == c[|meta.prefix|..];
    assert c == c[..|meta.prefix|] + c[|meta.prefix|..];
  }

  /** `_set_alignments_from_properties`: replace every place's alignments
      by those read from the configured fields. */
  function SetAlignments(places: seq<Place>, fields: seq<(string, FieldMeta)>, norm: Normaliser): (r: Result<seq<Place>>)
    ensures r.Ok? <==> forall i :: 0 <= i < |places| ==> PlaceAlignments(places[i], fields, norm).Ok?
    ensures r.Ok? ==> |r.value| == |places| && forall i :: 0 <= i < |places| ==>
      r.value[i] == places[i].(alignments := PlaceAlignments(places[i], fields, norm).value)
  {
    if |places| == 0 then Ok([])
    else
      assert forall i :: 1 <= i < |places| ==> places[i] == places[1..][i - 1];
      var ids :- PlaceAlignments(places[0], fields, norm);
      var rest :- SetAlignments(places[1..], fields, norm);
      Ok([places[0].(alignments := ids)] + rest)
  }

  /** The names of one place: the union of the kept values of the listed
      fields. */
  function PlaceNames(place: Place, fieldnames: seq<string>, norm: Normaliser): (r: Result<set<string>>)
    ensures r.Ok? <==> forall i :: 0 <= i < |fieldnames| ==> fieldnames[i] in place.rawProperties
    ensures r.Err? ==> r.error.KeyError?
    ensures r.Ok? ==> forall c :: c in r.value ==> Kept(c)
  {
    if |fieldnames| == 0 then Ok({})
    else
      assert forall i :: 1 <= i < |fieldnames| ==> fieldnames[i] == fieldnames[1..][i - 1];
      var raw :- Property(place, fieldnames[0]);
      var rest :- PlaceNames(place, fieldnames[1..], norm);
      Ok((if Falsy(raw) then {} else Cleaned(raw, norm)) + rest)
  }

  /** The names of a place are exactly the normalised, kept pieces of its
      listed fields. */
  lemma {:induction false} PlaceNamesMember(place: Place, fieldnames: seq<string>, norm: Normaliser, c: string)
    requires PlaceNames(place, fieldnames, norm).Ok?
    ensures c in PlaceNames(place, fieldnames, norm).value <==>
      exists i, p :: 0 <= i < |fieldnames| && p in Pieces(place.rawProperties[fieldnames[i]])
        && Kept(NormString(norm, p)) && c == NormString(norm, p)
  {
    if |fieldnames| > 0 {
      var raw := place.rawProperties[fieldnames[0]];
      PlaceNamesMember(place, fieldnames[1..], norm, c);
      assert forall i :: 1 <= i < |fieldnames| ==> fieldnames[i] == fieldnames[1..][i - 1];
      if Falsy(raw) && raw.Text? {
        assert forall p :: p in Pieces(raw) ==> p == "";
      }
    }
  }

  /** `_set_names_from_properties`: replace every place's names. */
  function SetNames(places: seq<Place>, fieldnames: seq<string>, norm: Normaliser): (r: Result<seq<Place>>)
    ensures r.Ok? <==> forall i :: 0 <= i < |places| ==> PlaceNames(places[i], fieldnames, norm).Ok?
    ensures r.Ok? ==> |r.value| == |places| && forall i :: 0 <= i < |places| ==>
      r.value[i] == places[i].(names := PlaceNames(places[i], fieldnames, norm).value)
  {
    if |places| == 0 then Ok([])
    else
      assert forall i :: 1 <= i < |places| ==> places[i] == places[1..][i - 1];
      var names :- PlaceNames(places[0], fieldnames, norm);
      var rest :- SetNames(places[1..], fieldnames, norm);
      Ok([places[0].(names := names)] + rest)
  }

  /** `_norm_string` of a raw value: falsy values give `""`; the
      normaliser accepts only text, so a non-empty list or set is a
      `TypeError`. */
  function NormRaw(v: Raw, norm: Normaliser): (r: Result<string>)
    ensures Falsy(v) ==> r == Ok("")
    ensures r.Err? <==> !Falsy(v) && !v.Text?
  {
    match v
    case Text(s) => Ok(NormString(norm, s))
    case _ => if Falsy(v) then Ok("") else Err(TypeError)
  }

  /** The text before the code in the message of the `KeyError` for an
      unknown feature type code. */
  const UnsupportedPrefix := "Unsupported feature type code '"

  /** That message: it names the code, right after the fixed text, and ends
      with the field. */
  function UnsupportedCode(code: string, fieldname: string): (msg: string)
    ensures |UnsupportedPrefix| + |code| + |fieldname| <= |msg|
    ensures msg[..|UnsupportedPrefix|] == UnsupportedPrefix
    ensures msg[|UnsupportedPrefix|..|UnsupportedPrefix| + |code|] == code
    ensures msg[|msg| - |fieldname|..] == fieldname
  {
    var msg := UnsupportedPrefix + code + "' in field " + fieldname;
    assert msg[|UnsupportedPrefix|..|UnsupportedPrefix| + |code|] == code;
    assert msg[|msg| - |fieldname|..] == fieldname;
    msg
  }

  /** For one field, the message tells unknown codes apart. */
  lemma UnsupportedCodeInjective(c1: string, c2: string, fieldname: string)
    requires UnsupportedCode(c1, fieldname) == UnsupportedCode(c2, fieldname)
    ensures c1 == c2
  {
  }

  /** The feature type of one place: its normalised code looked up in the
      table; an unknown code is a `KeyError` naming the code and the field. */
  function FeatureType(place: Place, fieldname: string, table: map<string, string>, norm: Normaliser): (r: Result<string>)
    ensures r.Ok? <==> (fieldname in place.rawProperties
      && NormRaw(place.rawProperties[fieldname], norm).Ok?
      && NormRaw(place.rawProperties[fieldname], norm).value in table)
    ensures r.Ok? ==> r.value == table[NormRaw(place.rawProperties[fieldname], norm).value]
    ensures r.Err? ==> r.error == (if fieldname !in place.rawProperties then KeyError(fieldname)
      else if NormRaw(place.rawProperties[fieldname], norm).Err? then TypeError
      else KeyError(UnsupportedCode(NormRaw(place.rawProperties[fieldname], norm).value, fieldname)))
  {
    var raw :- Property(place, fieldname);
    var code :- NormRaw(raw, norm);
    if code in table then Ok(table[code]) else Err(KeyError(UnsupportedCode(code, fieldname)))
  }

  /** `_set_feature_types_from_properties`: add each place's feature type,
      stopping at the first place whose code is unknown. */
  function SetFeatureTypes(places: seq<Place>, fieldname: string, table: map<string, string>, norm: Normaliser): (r: Result<seq<Place>>)
    ensures r.Ok? <==> forall i :: 0 <= i < |places| ==> FeatureType(places[i], fieldname, table, norm).Ok?
    ensures r.Ok? ==> |r.value| == |places| && forall i :: 0 <= i < |places| ==>
      && r.value[i].featureTypes == places[i].featureTypes + {FeatureType(places[i], fieldname, table, norm).value}
      && r.value[i] == places[i].(featureTypes := r.value[i].featureTypes)
  {
    if |places| == 0 then Ok([])
    else
      assert forall i :: 1 <= i < |places| ==> places[i] == places[1..][i - 1];
      var t :- FeatureType(places[0], fieldname, table, norm);
      var rest :- SetFeatureTypes(places[1..], fieldname, table, norm);
      Ok([places[0].(featureTypes := places[0].featureTypes + {t})] + rest)
  }

  /** The first place whose code is unknown decides the `KeyError`. */
  lemma SetFeatureTypesError(places: seq<Place>, fieldname: string, table: map<string, string>, norm: Normaliser, k: nat)
    requires k < |places|
    requires forall i :: 0 <= i < k ==> FeatureType(places[i], fieldname, table, norm).Ok?
    requires FeatureType(places[k], fieldname, table, norm).Err?
    ensures SetFeatureTypes(places, fieldname, table, norm) == Err(FeatureType(places[k], fieldname, table, norm).error)
    decreases k
  {
    if k > 0 {
      assert forall i :: 1 <= i < |places| ==> places[i] == places[1..][i - 1];
      SetFeatureTypesError(places[1..], fieldname, table, norm, k - 1);
    }
  }

  // ---------------------------------------------------------------------
  // Rows to places

  /** Python truthiness of a guessed field name. */
  predicate Present(key: Option<string>)
  {
    key.Some? && key.value != ""
  }

  /** `datum[key]`: a field the row lacks, or no field at all (`None`), is
      a `KeyError`. */
  function Cell(datum: Row, key: Option<string>): (r: Result<string>)
    ensures r.Ok? <==> key.Some? && key.value in datum
    ensures r.Ok? ==> r.value == datum[key.value]
    ensures r.Err? ==> r.error.KeyError?
  {
    if key.None? then Err(KeyError("None"))
    else if key.value in datum then Ok(datum[key.value])
    else Err(KeyError(key.value))
  }

  /** The three guessed fields of a header. */
  datatype Keys = Keys(id: Option<string>, lat: Option<string>, lon: Option<string>)

  function GuessKeys(fieldnames: seq<string>): Keys
  {
    Keys(GuessCsvField(fieldnames, IdGuesses),
         GuessCsvField(fieldnames, LatitudeGuesses),
         GuessCsvField(fieldnames, LongitudeGuesses))
  }

  predicate HasPoint(keys: Keys)
  {
    Present(keys.lat) && Present(keys.lon)
  }

  /** The property fields: every field but the id field, and but the
      coordinate fields when both were found. */
  function OtherKeys(fieldnames: seq<string>, keys: Keys): (r: seq<string>)
    ensures forall k :: k in r <==> (k in fieldnames && Some(k) != keys.id &&
      (HasPoint(keys) ==> Some(k) != keys.lat && Some(k) != keys.lon))
    ensures |r| <= |fieldnames|
  {
    if |fieldnames| == 0 then []
    else
      var k := fieldnames[0];
      var keep := Some(k) != keys.id && (HasPoint(keys) ==> Some(k) != keys.lat && Some(k) != keys.lon);
      (if keep then [k] else []) + OtherKeys(fieldnames[1..], keys)
  }

  /** The point of a row when both coordinate fields were found: longitude
      first, as `Point([lon, lat])` reads them. */
  function RowPoints(datum: Row, keys: Keys): (r: Result<seq<Point>>)
    ensures !HasPoint(keys) ==> r == Ok([])
    ensures r.Ok? <==> (HasPoint(keys) ==> keys.lon.value in datum && keys.lat.value in datum)
    ensures r.Ok? && HasPoint(keys) ==> r.value == [Point(datum[keys.lon.value], datum[keys.lat.value])]
  {
    if HasPoint(keys) then
      var lon :- Cell(datum, keys.lon);
      var lat :- Cell(datum, keys.lat);
      Ok([Point(lon, lat)])
    else Ok([])
  }

  /** The id of a row's place: the id cell, cleaned. */
  function RowId(datum: Row, keys: Keys, actions: seq<(string, string)>): Result<string>
  {
    var raw :- Cell(datum, keys.id);
    CleanId(raw, actions)
  }

  /** `{k: datum[k] for k in other_keys}`. */
  function RowProperties(datum: Row, fields: seq<string>): (r: Result<map<string, Raw>>)
    ensures r.Ok? <==> forall k :: k in fields ==> k in datum
    ensures r.Ok? ==> r.value.Keys == set k | k in fields
    ensures r.Ok? ==> forall k :: k in r.value ==> r.value[k] == Text(datum[k])
  {
    if |fields| == 0 then Ok(map[])
    else
      var v :- Cell(datum, Some(fields[0]));
      var rest :- RowProperties(datum, fields[1..]);
      Ok(rest[fields[0] := Text(v)])
  }

  /** One place per row of a file whose ids are unique. */
  function UniquePlace(datum: Row, keys: Keys, fields: seq<string>, actions: seq<(string, string)>): (r: Result<Place>)
    ensures r.Ok? <==> (RowId(datum, keys, actions).Ok? && RowPoints(datum, keys).Ok? && forall k :: k in fields ==> k in datum)
    ensures r.Ok? ==> Ok(r.value.id) == RowId(datum, keys, actions)
    ensures r.Ok? ==> r.value.rawProperties.Keys == set k | k in fields
    ensures r.Ok? ==> forall k :: k in r.value.rawProperties ==> r.value.rawProperties[k] == Text(datum[k])
    ensures r.Ok? ==> Ok(r.value.geometries) == RowPoints(datum, keys)
  {
    var id :- RowId(datum, keys, actions);
    var points :- RowPoints(datum, keys);
    var props :- RowProperties(datum, fields);
    Ok(NewPlace(id).(geometries := points, rawProperties := props))
  }

  function UniquePlaces(rows: seq<Row>, keys: Keys, fields: seq<string>, actions: seq<(string, string)>): (r: Result<seq<Place>>)
    ensures r.Ok? <==> forall i :: 0 <= i < |rows| ==> UniquePlace(rows[i], keys, fields, actions).Ok?
    ensures r.Ok? ==> |r.value| == |rows|
    ensures r.Ok? ==> forall i :: 0 <= i < |rows| ==> r.value[i] == UniquePlace(rows[i], keys, fields, actions).value
  {
    if |rows| == 0 then Ok([])
    else
      assert forall i :: 1 <= i < |rows| ==> rows[i] == rows[1..][i - 1];
      var p :- UniquePlace(rows[0], keys, fields, actions);
      var rest :- UniquePlaces(rows[1..], keys, fields, actions);
      Ok([p] + rest)
  }

  /** `_ingest_unique_rows`: the places of the rows in row order, or the
      places held before when there is no row. */
  function IngestUniqueRows(prior: seq<Place>, rows: seq<Row>, fieldnames: seq<string>, actions: seq<(string, string)>): Result<seq<Place>>
  {
    var keys := GuessKeys(fieldnames);
    if |rows| == 0 then Ok(prior)
    else UniquePlaces(rows, keys, OtherKeys(fieldnames, keys), actions)
  }

  /** The places of the rows keep neither the id field nor, when both were
      found, the coordinate fields among their properties. */
  lemma IngestUniqueRowsOmits(prior: seq<Place>, rows: seq<Row>, fieldnames: seq<string>, actions: seq<(string, string)>, i: nat)
    requires IngestUniqueRows(prior, rows, fieldnames, actions).Ok? && i < |rows|
    ensures var places := IngestUniqueRows(prior, rows, fieldnames, actions).value;
      var keys := GuessKeys(fieldnames);
      && |places| == |rows|
      && places[i] == UniquePlace(rows[i], keys, OtherKeys(fieldnames, keys), actions).value
      && (keys.id.Some? ==> keys.id.value !in places[i].rawProperties)
      && (HasPoint(keys) ==> keys.lat.value !in places[i].rawProperties && keys.lon.value !in places[i].rawProperties)
  {
  }

  /** Without rows nothing changes. */
  lemma IngestUniqueRowsEmpty(prior: seq<Place>, fieldnames: seq<string>, actions: seq<(string, string)>)
    ensures IngestUniqueRows(prior, [], fieldnames, actions) == Ok(prior)
  {
  }

  // ---------------------------------------------------------------------
  // Non-unique rows

  /** The value a property holds after one more row: the first value as
      text, text that stays text while the values agree, the set of both
      on the first disagreement, and a growing set after that. */
  function MergeValue(prev: Option<Raw>, v: string): Raw
  {
    match prev
    case None => Text(v)
    case Some(Text(s)) => if s != v then Group({s, v}) else Text(s)
    case Some(Group(xs)) => Group(xs + {v})
    case Some(other) => other
  }

  function Get(props: map<string, Raw>, k: string): Option<Raw>
  {
    if k in props then Some(props[k]) else None
  }

  /** Merge one row's normalised cells into a place's properties, field by
      field. */
  function MergeRow(props: map<string, Raw>, datum: Row, fields: seq<string>, norm: Normaliser): (r: Result<map<string, Raw>>)
    ensures r.Ok? <==> forall k :: k in fields ==> k in datum
    ensures r.Ok? ==> r.value.Keys == props.Keys + (set k | k in fields)
    ensures r.Ok? ==> forall k :: k in props && k !in fields ==> r.value[k] == props[k]
    decreases |fields|
  {
    if |fields| == 0 then Ok(props)
    else
      var k := fields[0];
      var v :- Cell(datum, Some(k));
      MergeRow(props[k := MergeValue(Get(props, k), NormString(norm, v))], datum, fields[1..], norm)
  }

  predicate Distinct(xs: seq<string>)
  {
    forall i, j :: 0 <= i < j < |xs| ==> xs[i] != xs[j]
  }

  /** With distinct fields every field is merged exactly once. */
  lemma {:induction false} MergeRowAt(props: map<string, Raw>, datum: Row, fields: seq<string>, norm: Normaliser, k: string)
    requires MergeRow(props, datum, fields, norm).Ok? && k in fields && Distinct(fields)
    ensures k in MergeRow(props, datum, fields, norm).value
    ensures MergeRow(props, datum, fields, norm).value[k] == MergeValue(Get(props, k), NormString(norm, datum[k]))
    decreases |fields|
  {
    var f := fields[0];
    var props' := props[f := MergeValue(Get(props, f), NormString(norm, datum[f]))];
    assert MergeRow(props, datum, fields, norm) == MergeRow(props', datum, fields[1..], norm);
    if k == f {
      assert k !in fields[1..];
    } else {
      assert k in fields[1..];
      MergeRowAt(props', datum, fields[1..], norm, k);
    }
  }

  /** How the values of one property, read in row order, end up: text when
      they all agree, otherwise the set of them. */
  function Summary(vs: seq<string>): Raw
    requires |vs| > 0
  {
    if forall i :: 0 <= i < |vs| ==> vs[i] == vs[0] then Text(vs[0]) else Group(set v | v in vs)
  }

  /** Merging one more value extends the summary. */
  lemma MergeSummary(vs: seq<string>, v: string)
    requires |vs| > 0
    ensures MergeValue(Some(Summary(vs)), v) == Summary(vs + [v])
  {
    var ws := vs + [v];
    assert forall i :: 0 <= i < |vs| ==> ws[i] == vs[i];
    assert ws[|vs|] == v;
    assert (set x | x in ws) == (set x | x in vs) + {v};
    if forall i :: 0 <= i < |vs| ==> vs[i] == vs[0] {
      assert (set x | x in vs) == {vs[0]};
    } else {
      var i :| 0 <= i < |vs| && vs[i] != vs[0];
      assert ws[i] != ws[0];
    }
  }

  /** The places collected so far, in first-appearance order. */
  datatype Grouping = Grouping(order: seq<string>, places: map<string, Place>)

  /** The grouping after one more row. */
  function GroupRow(g: Grouping, datum: Row, keys: Keys, fields: seq<string>, actions: seq<(string, string)>, norm: Normaliser): (r: Result<Grouping>)
    ensures r.Ok? ==> RowId(datum, keys, actions).Ok?
    ensures r.Ok? ==> var pid := RowId(datum, keys, actions).value;
      && r.value.order == (if pid in g.places then g.order else g.order + [pid])
      && r.value.places.Keys == g.places.Keys + {pid}
      && r.value.places[pid].id == (if pid in g.places then g.places[pid].id else pid)
      && (forall id :: id in g.places && id != pid ==> r.value.places[id] == g.places[id])
  {
    var pid :- RowId(datum, keys, actions);
    var place := if pid in g.places then g.places[pid] else NewPlace(pid);
    var points :- RowPoints(datum, keys);
    var props :- MergeRow(place.rawProperties, datum, fields, norm);
    var place' := place.(geometries := place.geometries + points, rawProperties := props);
    Ok(Grouping(if pid in g.places then g.order else g.order + [pid], g.places[pid := place']))
  }

  /** The cleaned ids of the rows, in row order. */
  function Pids(rows: seq<Row>, keys: Keys, actions: seq<(string, string)>): seq<string>
  {
    if |rows| == 0 then []
    else
      var last := RowId(rows[|rows| - 1], keys, actions);
      Pids(rows[..|rows| - 1], keys, actions) + (if last.Ok? then [last.value] else [])
  }

  /** The distinct elements of `xs` in first-appearance order. */
  function Dedup(xs: seq<string>): (r: seq<string>)
    ensures Distinct(r)
    ensures forall x :: x in r <==> x in xs
  {
    if |xs| == 0 then []
    else
      var init := xs[..|xs| - 1];
      var last := xs[|xs| - 1];
      assert xs == init + [last];
      Dedup(init) + (if last in init then [] else [last])
  }

  /** Grouping all rows: the order is the first-appearance order of the
      cleaned ids, and every id in it has its place. */
  function GroupRows(rows: seq<Row>, keys: Keys, fields: seq<string>, actions: seq<(string, string)>, norm: Normaliser): (r: Result<Grouping>)
    ensures r.Ok? ==> Shaped(r.value, Pids(rows, keys, actions))
  {
    if |rows| == 0 then Ok(Grouping([], map[]))
    else
      var g :- GroupRows(rows[..|rows| - 1], keys, fields, actions, norm);
      GroupRowShape(g, rows, keys, fields, actions, norm);
      GroupRow(g, rows[|rows| - 1], keys, fields, actions, norm)
  }

  /** The grouping lists each id once, in first-appearance order, with its
      place. */
  ghost predicate Shaped(g: Grouping, pids: seq<string>)
  {
    && g.order == Dedup(pids)
    && (forall id :: id in g.places <==> id in g.order)
    && (forall id :: id in g.places ==> g.places[id].id == id)
  }

  /** One more row keeps the grouping shaped. */
  lemma GroupRowShape(g: Grouping, rows: seq<Row>, keys: Keys, fields: seq<string>, actions: seq<(string, string)>, norm: Normaliser)
    requires |rows| > 0 && Shaped(g, Pids(rows[..|rows| - 1], keys, actions))
    ensures var r := GroupRow(g, rows[|rows| - 1], keys, fields, actions, norm);
      r.Ok? ==> Shaped(r.value, Pids(rows, keys, actions))
  {
    var r := GroupRow(g, rows[|rows| - 1], keys, fields, actions, norm);
    if r.Ok? {
      var init := Pids(rows[..|rows| - 1], keys, actions);
      var pid := RowId(rows[|rows| - 1], keys, actions).value;
      assert Pids(rows, keys, actions) == init + [pid];
      assert r.value.order == Dedup(init + [pid]) by {
        DedupSnoc(init, pid);
      }
      GroupRowKeys(g, r.value, pid);
    }
  }

  lemma GroupRowKeys(g: Grouping, g': Grouping, pid: string)
    requires forall id :: id in g.places <==> id in g.order
    requires forall id :: id in g.places ==> g.places[id].id == id
    requires g'.order == (if pid in g.places then g.order else g.order + [pid])
    requires g'.places.Keys == g.places.Keys + {pid}
    requires g'.places[pid].id == (if pid in g.places then g.places[pid].id else pid)
    requires forall id :: id in g.places && id != pid ==> g'.places[id] == g.places[id]
    ensures forall id :: id in g'.places <==> id in g'.order
    ensures forall id :: id in g'.places ==> g'.places[id].id == id
  {
  }

  lemma DedupSnoc(xs: seq<string>, x: string)
    ensures Dedup(xs + [x]) == Dedup(xs) + (if x in xs then [] else [x])
  {
    assert (xs + [x])[..|xs|] == xs;
  }

  /** `_ingest_nonunique_rows`: one place per distinct cleaned id, in
      first-appearance order; the places held before stay when there is
      no row. */
  function IngestNonuniqueRows(prior: seq<Place>, rows: seq<Row>, fieldnames: seq<string>,
                               actions: seq<(string, string)>, norm: Normaliser): (r: Result<seq<Place>>)
    ensures |rows| == 0 ==> r == Ok(prior)
  {
    var keys := GuessKeys(fieldnames);
    if |rows| == 0 then Ok(prior)
    else
      var g :- GroupRows(rows, keys, OtherKeys(fieldnames, keys), actions, norm);
      ShapedListed(g, Pids(rows, keys, actions));
      Ok(Listed(g))
  }

  /** The places of a grouping in its order. */
  function Listed(g: Grouping): (r: seq<Place>)
    requires forall i :: 0 <= i < |g.order| ==> g.order[i] in g.places
    ensures |r| == |g.order| && forall i :: 0 <= i < |g.order| ==> r[i] == g.places[g.order[i]]
  {
    seq(|g.order|, i requires 0 <= i < |g.order| => g.places[g.order[i]])
  }

  lemma ShapedListed(g: Grouping, pids: seq<string>)
    requires Shaped(g, pids)
    ensures forall i :: 0 <= i < |g.order| ==> g.order[i] in g.places
  {
  }

  /** The normalised values of field `k` in the rows of place `pid`, in
      row order. */
  function Values(rows: seq<Row>, keys: Keys, actions: seq<(string, string)>, norm: Normaliser, pid: string, k: string): seq<string>
  {
    if |rows| == 0 then []
    else
      var last := rows[|rows| - 1];
      Values(rows[..|rows| - 1], keys, actions, norm, pid, k)
        + (if RowId(last, keys, actions) == Ok(pid) && k in last then [NormString(norm, last[k])] else [])
  }

  /** Field `k` of place `pid` summarises the values `vs` read so far. */
  ghost predicate Summarises(g: Grouping, pid: string, k: string, vs: seq<string>)
  {
    && (pid in g.places ==> |vs| > 0 && k in g.places[pid].rawProperties && g.places[pid].rawProperties[k] == Summary(vs))
    && (pid !in g.places ==> vs == [])
  }

  /** One more row keeps every field summarising its values. */
  lemma GroupRowValue(g: Grouping, datum: Row, keys: Keys, fields: seq<string>, actions: seq<(string, string)>,
                      norm: Normaliser, pid: string, k: string, vs: seq<string>)
    requires GroupRow(g, datum, keys, fields, actions, norm).Ok?
    requires k in fields && Distinct(fields)
    requires Summarises(g, pid, k, vs)
    ensures Summarises(GroupRow(g, datum, keys, fields, actions, norm).value, pid, k,
      vs + (if RowId(datum, keys, actions) == Ok(pid) && k in datum then [NormString(norm, datum[k])] else []))
  {
    var id := RowId(datum, keys, actions).value;
    if id == pid {
      GroupRowValueHere(g, datum, keys, fields, actions, norm, pid, k, vs);
    } else {
      assert RowId(datum, keys, actions) != Ok(pid);
      assert vs + [] == vs;
    }
  }

  /** The row's own place gains the row's value. */
  lemma GroupRowValueHere(g: Grouping, datum: Row, keys: Keys, fields: seq<string>, actions: seq<(string, string)>,
                          norm: Normaliser, pid: string, k: string, vs: seq<string>)
    requires GroupRow(g, datum, keys, fields, actions, norm).Ok?
    requires k in fields && Distinct(fields)
    requires Summarises(g, pid, k, vs)
    requires RowId(datum, keys, actions) == Ok(pid)
    ensures k in datum
    ensures Summarises(GroupRow(g, datum, keys, fields, actions, norm).value, pid, k, vs + [NormString(norm, datum[k])])
  {
    var r := GroupRow(g, datum, keys, fields, actions, norm).value;
    var place := if pid in g.places then g.places[pid] else NewPlace(pid);
    var props := MergeRow(place.rawProperties, datum, fields, norm).value;
    assert r.places[pid].rawProperties == props;
    var v := NormString(norm, datum[k]);
    MergeRowAt(place.rawProperties, datum, fields, norm, k);
    if pid in g.places {
      MergeSummary(vs, v);
    } else {
      assert vs + [v] == [v];
    }
  }

  /** After grouping, a field of a place is its single value as text when
      all its rows agree on it, and the set of its values otherwise. */
  lemma {:induction false} GroupRowsValues(rows: seq<Row>, keys: Keys, fields: seq<string>, actions: seq<(string, string)>,
                                           norm: Normaliser, pid: string, k: string)
    requires GroupRows(rows, keys, fields, actions, norm).Ok?
    requires k in fields && Distinct(fields)
    ensures Summarises(GroupRows(rows, keys, fields, actions, norm).value, pid, k, Values(rows, keys, actions, norm, pid, k))
  {
    if |rows| > 0 {
      var init := rows[..|rows| - 1];
      GroupRowsValues(init, keys, fields, actions, norm, pid, k);
      GroupRowValue(GroupRows(init, keys, fields, actions, norm).value, rows[|rows| - 1], keys, fields, actions, norm,
                    pid, k, Values(init, keys, actions, norm, pid, k));
    }
  }

  /** `_ingest_nonunique_rows` with distinct field names: each place's
      property is the one value its rows agree on, as text, or the set of
      the values they disagree on. */
  lemma IngestNonuniqueRowsValues(prior: seq<Place>, rows: seq<Row>, fieldnames: seq<string>,
                                  actions: seq<(string, string)>, norm: Normaliser, i: nat, k: string)
    requires IngestNonuniqueRows(prior, rows, fieldnames, actions, norm).Ok?
    requires |rows| > 0 && i < |IngestNonuniqueRows(prior, rows, fieldnames, actions, norm).value|
    requires Distinct(fieldnames) && k in OtherKeys(fieldnames, GuessKeys(fieldnames))
    ensures var place := IngestNonuniqueRows(prior, rows, fieldnames, actions, norm).value[i];
      var vs := Values(rows, GuessKeys(fieldnames), actions, norm, place.id, k);
      |vs| > 0 && k in place.rawProperties && place.rawProperties[k] == Summary(vs)
  {
    var keys := GuessKeys(fieldnames);
    var fields := OtherKeys(fieldnames, keys);
    var g := GroupRows(rows, keys, fields, actions, norm).value;
    var pid := g.order[i];
    OtherKeysDistinct(fieldnames, keys);
    GroupRowsValues(rows, keys, fields, actions, norm, pid, k);
  }

  lemma {:induction false} OtherKeysDistinct(fieldnames: seq<string>, keys: Keys)
    requires Distinct(fieldnames)
    ensures Distinct(OtherKeys(fieldnames, keys))
  {
    if |fieldnames| > 0 {
      OtherKeysDistinct(fieldnames[1..], keys);
      assert fieldnames[0] !in fieldnames[1..];
      var rest := OtherKeys(fieldnames[1..], keys);
      assert fieldnames[0] !in rest;
    }
  }

  /** Places come out one per distinct cleaned id, in the order the ids
      first appear in the rows. */
  lemma IngestNonuniqueRowsOrder(prior: seq<Place>, rows: seq<Row>, fieldnames: seq<string>,
                                 actions: seq<(string, string)>, norm: Normaliser)
    requires IngestNonuniqueRows(prior, rows, fieldnames, actions, norm).Ok? && |rows| > 0
    ensures var places := IngestNonuniqueRows(prior, rows, fieldnames, actions, norm).value;
      var ids := Dedup(Pids(rows, GuessKeys(fieldnames), actions));
      |places| == |ids| && forall i :: 0 <= i < |ids| ==> places[i].id == ids[i]
  {
    var keys := GuessKeys(fieldnames);
    var g := GroupRows(rows, keys, OtherKeys(fieldnames, keys), actions, norm).value;
    ShapedListed(g, Pids(rows, keys, actions));
    assert IngestNonuniqueRows(prior, rows, fieldnames, actions, norm).value == Listed(g);
  }
}
