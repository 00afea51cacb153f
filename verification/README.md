# pleiades_aligner in Dafny

A model of the core of `pleiades_aligner`, the tool that finds correspondences
("alignments") between places of the Pleiades gazetteer and places in other
ancient-world data sets, and of the two review scripts built on its output.

- `wrappers.dfy` (`Wrappers`): `Option`, `Result` and the Python exceptions
  the core raises (`ValueError`, `KeyError`, `IndexError`, `TypeError`,
  `AttributeError`, `NotImplementedError`, `RuntimeError`).
- `strings.dfy` (`Strings`): Python's `str.split` on one character,
  `str.join`, `startswith`, code-point ordering of strings, ASCII `lower()`
  and `strip()`, and decimal rendering.
- `alignment.dfy` (`Alignments`): the `Alignment` record of
  `src/pleiades_aligner/aligner.py`. It holds an unordered pair of qualified
  ids `ns:id` with growing sets of authorities, modes and proximity labels.
  Its identity is the `repr` string `" >< ".join(sorted ids)`. It also models
  `asdict`.
- `engine.dfy` (`Engine`): the `Aligner` state, meaning the store keyed by
  identity plus the indexes by mode, full id, id namespace and authority
  namespace. It models `_register_alignment` (store a draft or merge it into
  the record of the same identity) and the four queries. The invariant
  `Valid` is kept by every registration.
- `strategies.dfy` (`Strategies`): the assertion pass, the proximity pass
  over geometric bins, inference through a bridge id (`align_by_inference`),
  and the `align` dispatch.
- `ingester.py` helpers are modelled in `ingester.dfy` (`Ingester`):
  - guessing CSV fields and cleaning ids;
  - disambiguating repeated headers;
  - reading alignments, names and feature types out of raw properties;
  - turning CSV rows into places, both when ids are unique and when they
    repeat.
- `manto.dfy` (`Manto`), from `scripts/manto.py`:
  - the three concurrence checks (reciprocal, names, types) on an alignment
    group;
  - the work `index` that files groups into review buckets;
  - `annotate`, which attaches reviewers' notes.
- `prioritize.dfy` (`Prioritize`), from `scripts/prioritize3.py`:
  - the eight review categories;
  - filtering the serialised alignments on a primary namespace;
  - filing each one under its primary place;
  - choosing each place's lowest category;
  - ranking places by number of alignments;
  - attaching inference-only alignments to a place's listing.

Every operation is a pure function returning a `Result` where the Python code
can raise. Each operation is paired with lemmas that state what it means:
- membership in both directions;
- round trips;
- invariants kept;
- idempotence;
- order.

Four facts about the code shape the model:
- The code has three modes: `assertion`, `proximity` and `inference`. It has
  no toponymy or typology mode and no matcher for either.
- An unsupported mode raises `ValueError`.
- `asdict` lists namespaces in set order; it does not sort them.
- An `Alignment` stores no distance.

A cross-module consequence follows. Every category of `scripts/prioritize3.py`
requires the `toponymy` mode, so alignments produced by this aligner are never
categorised there (`Prioritize.SupportedModesUncategorised`).

## Model

| member | source | states |
|---|---|---|
| Alignments.ParseMode | src/pleiades_aligner/aligner.py:35-41 | a mode name is accepted exactly when it is one of the three supported modes; any other name is a ValueError; an accepted name is the name of the parsed mode |
| Alignments.ParseModeName | src/pleiades_aligner/aligner.py:35-41 | parsing a mode's name gives the mode back |
| Alignments.AsSet | src/pleiades_aligner/aligner.py:28-47 | a falsy authority or proximity label (None or empty) contributes no element, a truthy one exactly itself |
| Alignments.NamespacesUnion | src/pleiades_aligner/aligner.py:26-34 | the namespaces of a union of ids are the union of their namespaces |
| Alignments.AlignedIds | src/pleiades_aligner/aligner.py:49-51 | `aligned_ids` is strictly increasing in Python string order and holds exactly the aligned ids, one per distinct id |
| Alignments.Ordered | src/pleiades_aligner/aligner.py:26-27 | the stored pair is the two ids in sorted order |
| Alignments.OrderedSymmetric | src/pleiades_aligner/aligner.py:26-27 | the stored pair does not depend on argument order |
| Alignments.Make | src/pleiades_aligner/aligner.py:18-47 | a constructed alignment is well formed, has ids {id_1, id_2}, the one mode, and the truthy authority and proximity only |
| Alignments.NewAlignment | src/pleiades_aligner/aligner.py:18-47 | construction succeeds iff the mode is supported (ValueError otherwise) and yields a well-formed record with exactly the given ids, mode, authority and proximity |
| Alignments.NewAlignmentSymmetric | src/pleiades_aligner/aligner.py:18-47 | `Alignment(a, b, ...)` and `Alignment(b, a, ...)` are the same value |
| Alignments.IdentityIsJoin | src/pleiades_aligner/aligner.py:95-99 | the identity is `" >< ".join(aligned_ids)` |
| Alignments.IdentityIgnoresEvidence | src/pleiades_aligner/aligner.py:95-99 | identity depends on the id pair only, not on mode, authority, proximity or argument order |
| Alignments.SameIdsSameIdentity | src/pleiades_aligner/aligner.py:95-99 | two well-formed alignments with the same ids share their identity |
| Alignments.IdentityInjective | src/pleiades_aligner/aligner.py:98-99 | when no id contains a space, equal identities mean equal id pairs |
| Alignments.IdentityCollision | src/pleiades_aligner/aligner.py:98-99 | ids containing the separator let two different pairs share one identity |
| Alignments.AddAuthority | src/pleiades_aligner/aligner.py:64-66 | adds the authority and its namespace, keeps well-formedness, changes nothing else, and is a no-op for a present authority |
| Alignments.AddMode | src/pleiades_aligner/aligner.py:89-93 | succeeds iff the mode is supported (ValueError otherwise), adds exactly that mode, changes nothing else |
| Alignments.AddProximity | src/pleiades_aligner/aligner.py:83-84 | adds one label and nothing else; a present label changes nothing |
| Alignments.UpdateProximity | src/pleiades_aligner/aligner.py:86-87 | adds the given labels and nothing else; labels already present change nothing |
| Alignments.SortedModeNames | src/pleiades_aligner/aligner.py:110 | the mode names strictly sorted, exactly the names of the modes held |
| Alignments.SortedOf | src/pleiades_aligner/aligner.py:108 | `sorted(set)`: strictly increasing, same elements, same size |
| Alignments.AsDict | src/pleiades_aligner/aligner.py:104-115 | `asdict` has the sorted ids, the id namespaces, the authorities sorted, the identity as hash, the sorted mode names, and a proximity label exactly when proximity mode is held and a label exists |
| Engine.Init | src/pleiades_aligner/aligner.py:119-132 | a new aligner has an empty store and satisfies the invariant |
| Engine.AddUnder | src/pleiades_aligner/aligner.py:201-221 | adding an identity under keys creates exactly the missing buckets |
| Engine.AddUnderHas | src/pleiades_aligner/aligner.py:201-221 | after adding, an index entry exists iff it existed before or is the identity under one of the keys |
| Engine.AddUnderNonEmpty | src/pleiades_aligner/aligner.py:201-221 | a bucket is only ever created to hold an identity, so none is empty |
| Engine.MergeWellFormed | src/pleiades_aligner/aligner.py:190-196 | merging keeps a record well formed and its authority namespaces are the union of both |
| Engine.RegisterMerges | src/pleiades_aligner/aligner.py:181-196 | a new identity stores the draft as is; a known one keeps its ids and proximity labels and gains the draft's authorities and modes; no other record changes |
| Engine.RegisterAt | src/pleiades_aligner/aligner.py:181-196 | what registration stores under every identity: old records, the draft, or the merge |
| Engine.RegisterIndexes | src/pleiades_aligner/aligner.py:198-221 | after registration the identity is listed under every mode, id, id namespace and authority namespace of the stored record |
| Engine.RegisterGrows | src/pleiades_aligner/aligner.py:181-221 | registration never removes a stored record, evidence or index entry |
| Engine.RegisterValid | src/pleiades_aligner/aligner.py:181-221 | registration preserves the invariant: store keyed by identity; all four indexes sound; the full-id, id-namespace and authority-namespace indexes complete with no empty bucket; the mode index has exactly the three mode buckets |
| Engine.StoredOk | src/pleiades_aligner/aligner.py:182-196 | the stored record keeps the draft's identity and extends any prior record |
| Engine.RegisterSound | src/pleiades_aligner/aligner.py:198-221 | every index entry after registration names a stored record with the indexed property |
| Engine.RegisterComplete | src/pleiades_aligner/aligner.py:198-221 | every stored record is indexed under each of its ids, id namespaces and authority namespaces |
| Engine.RegisterIdempotent | src/pleiades_aligner/aligner.py:181-221 | registering the same draft twice equals registering it once |
| Engine.MergeAbsorbs | src/pleiades_aligner/aligner.py:190-196 | merging the same draft again changes nothing |
| Engine.RegisterTwoModes | src/pleiades_aligner/aligner.py:181-196 | drafts of the same pair in either order and different modes give one record carrying both modes |
| Engine.AlignmentsByMode | src/pleiades_aligner/aligner.py:138-141 | the result is exactly the stored records of the identities in the mode's bucket: each identity there yields its record, each returned record comes from one, and each has that mode |
| Engine.AlignmentsByModeName | src/pleiades_aligner/aligner.py:138-141 | a mode name outside the three buckets is KeyError(name), otherwise the bucket's alignments |
| Engine.AlignmentsByFullId | src/pleiades_aligner/aligner.py:143-146 | KeyError iff no stored alignment has the id; otherwise exactly the stored alignments that have it |
| Engine.FullIdBucket | src/pleiades_aligner/aligner.py:201-207 | the full-id bucket exists iff some stored alignment has the id, and it lists exactly those |
| Engine.AlignmentsByIdNamespace | src/pleiades_aligner/aligner.py:159-163 | KeyError iff no stored alignment has an id in the namespace; otherwise exactly those that do |
| Engine.IdNamespaceBucket | src/pleiades_aligner/aligner.py:215-221 | the namespace bucket exists iff some stored alignment has an id there, and it lists exactly those |
| Engine.AlignmentsByAuthorityNamespace | src/pleiades_aligner/aligner.py:148-157 | exactly the stored alignments with an authority in the namespace; empty, not an error, for an unknown one |
| Engine.AuthorityNamespaceBucket | src/pleiades_aligner/aligner.py:208-214 | an authority-namespace bucket lists exactly the stored alignments with an authority there |
| Engine.RegisterAllKeys | src/pleiades_aligner/aligner.py:181-187 | after a run of registrations the store holds the prior identities plus the drafts' identities, nothing else |
| Engine.RegisterAllGrows | src/pleiades_aligner/aligner.py:181-221 | a run of registrations only adds |
| Engine.RegisterAllValid | src/pleiades_aligner/aligner.py:181-221 | a run of registrations of valid drafts preserves the invariant |
| Engine.RegisterAllEvidence | src/pleiades_aligner/aligner.py:184-196 | the authorities and modes stored under an identity are the prior ones united with those of every draft of that identity |
| Engine.RegisterAllKeepsPrior | src/pleiades_aligner/aligner.py:188-196 | a stored record keeps its ids and proximity labels through any later registrations |
| Engine.RegisterAllFirst | src/pleiades_aligner/aligner.py:184-187 | a new identity takes ids and proximity labels from the first draft that has it |
| Engine.RegisterAllModeBucket | src/pleiades_aligner/aligner.py:199-200 | registering drafts of one mode adds exactly their identities to that mode's bucket |
| Engine.RegisterModeBucket | src/pleiades_aligner/aligner.py:199-200 | one registration adds its identity to each of its modes' buckets |
| Strategies.ResetValid | src/pleiades_aligner/aligner.py:168 | emptying a mode bucket keeps the invariant and the store |
| Strategies.AssertionEntriesMember | src/pleiades_aligner/aligner.py:169-171 | the assertion pass visits exactly every place of every ingester, with the ingester's key |
| Strategies.AssertionDraftsMember | src/pleiades_aligner/aligner.py:169-179 | the assertion drafts are exactly one per place and asserted target |
| Strategies.AssertionDraftsOk | src/pleiades_aligner/aligner.py:173-178 | every assertion draft is a valid draft in assertion mode only |
| Strategies.AlignAssertionsValid | src/pleiades_aligner/aligner.py:165-179 | the assertion pass preserves the invariant |
| Strategies.AlignAssertionsBucket | src/pleiades_aligner/aligner.py:168-179 | afterwards the assertion bucket holds exactly the identities of the asserted pairs |
| Strategies.AlignAssertionsRegistered | src/pleiades_aligner/aligner.py:169-179 | every asserted pair is stored in assertion mode with the asserting place as an authority |
| Strategies.AssertionsReciprocal | src/pleiades_aligner/aligner.py:169-196 | two places asserting each other yield one alignment with both as authorities |
| Strategies.MergeReciprocal | src/pleiades_aligner/aligner.py:190-196 | merging the two reciprocal drafts unites their authorities |
| Strategies.RegisterPair | src/pleiades_aligner/aligner.py:181-196 | two drafts of a new identity store their merge |
| Strategies.FirstMatch | src/pleiades_aligner/aligner.py:245-260 | the first category whose threshold the distance meets; all earlier ones miss; none when all miss |
| Strategies.FirstMatchSymmetric | src/pleiades_aligner/aligner.py:245-250 | with a symmetric distance the matching category does not depend on pair order |
| Strategies.PairDraft | src/pleiades_aligner/aligner.py:239-260 | no draft iff same namespace or no category matches; otherwise a valid proximity draft of the two ids, no authority, labelled with the first matching category |
| Strategies.PairDraftSymmetric | src/pleiades_aligner/aligner.py:240-259 | with a symmetric distance both orders of a pair give the same draft |
| Strategies.WithBin | src/pleiades_aligner/aligner.py:231 | only places with a truthy bin are binned |
| Strategies.ProximityEntriesMember | src/pleiades_aligner/aligner.py:228-237 | the binned entries are exactly the places with a truthy bin, with their data set's namespace |
| Strategies.BinKeys | src/pleiades_aligner/aligner.py:228-239 | the bins are the distinct bins of the entries |
| Strategies.Members | src/pleiades_aligner/aligner.py:237-240 | a bin holds exactly the entries with that bin |
| Strategies.RowDraftsMember | src/pleiades_aligner/aligner.py:241-260 | one row's drafts are exactly those of its pairs |
| Strategies.BinDraftsMember | src/pleiades_aligner/aligner.py:239-260 | a bin's drafts are exactly those of its ordered pairs |
| Strategies.ProximityDraftsMember | src/pleiades_aligner/aligner.py:228-260 | the proximity drafts are exactly the drafts of ordered pairs of binned places sharing a bin |
| Strategies.ProximityDraftsOk | src/pleiades_aligner/aligner.py:253-258 | every proximity draft is valid and in proximity mode only |
| Strategies.AlignProximityValid | src/pleiades_aligner/aligner.py:223-260 | the proximity pass preserves the invariant |
| Strategies.AlignProximityBucket | src/pleiades_aligner/aligner.py:226-260 | afterwards the proximity bucket holds exactly the identities of the matched pairs |
| Strategies.AlignProximityRegistered | src/pleiades_aligner/aligner.py:239-260 | every matched cross-namespace pair in a bin is stored in proximity mode |
| Strategies.FirstId | src/pleiades_aligner/aligner.py:284-288 | `[f for f in ids if f.startswith(p) == want][0]`: a qualifying id, the first one if the head qualifies, IndexError iff none qualifies |
| Strategies.Touching | src/pleiades_aligner/aligner.py:289-296 | exactly the alignments containing the id |
| Strategies.InferenceDraft | src/pleiades_aligner/aligner.py:311-313 | the inferred alignment is a valid inference draft of the two ids, authority the bridge when non-empty |
| Strategies.Inferred | src/pleiades_aligner/aligner.py:305-314 | fails (IndexError) iff some candidate lacks an inference-namespace id; otherwise exactly one draft per candidate |
| Strategies.Pairings | src/pleiades_aligner/aligner.py:299-314 | the drafts are exactly the primary end of each primary paired with the inferred end of each candidate; IndexError iff an end is missing |
| Strategies.JoinedMember | src/pleiades_aligner/aligner.py:283-314 | one candidate contributes exactly the joins through its bridge of a primary and a candidate containing it |
| Strategies.CandidateDrafts | src/pleiades_aligner/aligner.py:283-314 | the loop succeeds iff every candidate does, and yields exactly their contributions |
| Strategies.CandidateDraftsMember | src/pleiades_aligner/aligner.py:283-314 | the loop's drafts are exactly the joins through the bridge of some candidate |
| Strategies.EndExists | src/pleiades_aligner/aligner.py:300-310 | an alignment with an id in a namespace has an id starting with it |
| Strategies.BridgeExists | src/pleiades_aligner/aligner.py:284-288 | a colon-free inference namespace that is no prefix of the aligned one guarantees a bridge |
| Strategies.BridgeMissing | src/pleiades_aligner/aligner.py:284-288 | with namespaces `geo` and `geonames` a candidate has no bridge and inference raises IndexError |
| Strategies.Primaries | src/pleiades_aligner/aligner.py:273-277 | exactly the stored alignments with ids in the primary and aligned namespaces |
| Strategies.Candidates | src/pleiades_aligner/aligner.py:278-282 | exactly the stored assertions with ids in the inference and aligned namespaces |
| Strategies.InferenceDrafts | src/pleiades_aligner/aligner.py:273-282 | a KeyError names the primary or the inference namespace |
| Strategies.InferenceDraftsError | src/pleiades_aligner/aligner.py:273-288 | KeyError(primary) if it has no alignment, else KeyError(inference) if that has none, else success iff every candidate has a bridge |
| Strategies.CandidateDraftsOk | src/pleiades_aligner/aligner.py:283-298 | over well-formed alignments the loop fails iff some candidate has no bridge |
| Strategies.InferenceDraftsMember | src/pleiades_aligner/aligner.py:273-314 | the inference drafts are exactly the joins of a stored primary and a stored candidate through the bridge of a stored candidate |
| Strategies.InferenceDraftsOk | src/pleiades_aligner/aligner.py:311-313 | every inference draft is valid and in inference mode only |
| Strategies.AlignByInferenceValid | src/pleiades_aligner/aligner.py:262-314 | inference preserves the invariant; its bucket grows by exactly the drafts' identities (it is not cleared first) |
| Strategies.AlignByInferenceOk | src/pleiades_aligner/aligner.py:273-310 | with both namespaces present and a colon-free, non-prefix inference namespace, inference cannot fail |
| Strategies.AlignByInferenceRegistered | src/pleiades_aligner/aligner.py:299-314 | every join found is stored in inference mode with its bridge as authority |
| Strategies.ParsePass | src/pleiades_aligner/aligner.py:134-136 | `_align_<name>` exists only for `assertions` and `proximity`; any other name is an AttributeError naming the method |
| Strategies.RunPass | src/pleiades_aligner/aligner.py:134-136 | a pass fails (TypeError) iff it is the proximity pass without `proximity_categories` |
| Strategies.AlignOk | src/pleiades_aligner/aligner.py:134-136 | `align` succeeds iff every name is a pass and proximity is not named without categories |
| Strategies.AlignValid | src/pleiades_aligner/aligner.py:134-136 | every successful `align` preserves the invariant |
| Strategies.AlignAssertionsLast | src/pleiades_aligner/aligner.py:134-136 | running assertions last leaves its bucket holding exactly the asserted pairs |
| Strings.Split | scripts/manto.py:97 | `str.split` on one character: at least one piece, no piece holds the separator, joining restores the string |
| Strings.JoinSplit | scripts/manto.py:112 | splitting a join of separator-free pieces returns the pieces |
| Strings.NamespaceOf | src/pleiades_aligner/aligner.py:27 | `id.split(":")[0]` is a colon-free prefix ending at the first colon or the end |
| Strings.NamespaceOfQualified | src/pleiades_aligner/aligner.py:27 | the namespace of `ns:local` is `ns` for colon-free `ns` |
| Strings.Lower | src/pleiades_aligner/ingester.py:130-131 | lowering maps each character and keeps the length |
| Strings.LowerIdempotent | src/pleiades_aligner/ingester.py:130-131 | lowering twice equals lowering once |
| Strings.Strip | src/pleiades_aligner/ingester.py:240 | the result is no longer than the line and neither starts nor ends with whitespace |
| Strings.StripStartSpaces | src/pleiades_aligner/ingester.py:240 | every character dropped from the front is whitespace |
| Strings.StripEndSpaces | src/pleiades_aligner/ingester.py:240 | every character dropped from the back is whitespace |
| Strings.StripMeans | src/pleiades_aligner/ingester.py:240 | the stripped line is a slice `s[i..j]` with only whitespace before `i` and after `j`; with `Strip`'s own contract, exactly the leading and trailing whitespace is removed |
| Strings.Decimal | src/pleiades_aligner/ingester.py:252 | a non-empty string of decimal digits |
| Strings.DecimalRoundTrip | src/pleiades_aligner/ingester.py:252 | reading the digits of `f"{n}"` back gives `n` |
| Strings.DecimalInjective | src/pleiades_aligner/ingester.py:252 | distinct numbers have distinct decimal strings |
| Ingester.NormString | src/pleiades_aligner/ingester.py:85-88 | an empty string normalises to "" without the normaliser; otherwise the normaliser's result |
| Ingester.IndexOf | src/pleiades_aligner/ingester.py:130-134 | the first field matching the candidate case-insensitively, none iff no field matches |
| Ingester.GuessCsvField | src/pleiades_aligner/ingester.py:124-139 | None iff no candidate matches any field; otherwise the first field matching the earliest matching candidate |
| Ingester.GuessCaseInsensitive | src/pleiades_aligner/ingester.py:130-138 | the guess ignores the candidates' case and returns a field in its own case |
| Ingester.GuessSameMatches | src/pleiades_aligner/ingester.py:124-139 | candidate lists matching the same fields guess the same field |
| Ingester.DropPrefix | src/pleiades_aligner/ingester.py:178 | Python `s[n:]`, empty past the end |
| Ingester.CleanId | src/pleiades_aligner/ingester.py:172-183 | no action returns the id; any action other than `strip-prefix` is NotImplementedError; the cleaned id is never longer |
| Ingester.StripPrefixInverse | src/pleiades_aligner/ingester.py:176-178 | stripping a present prefix returns the rest of the id |
| Ingester.StripPrefixUnchecked | src/pleiades_aligner/ingester.py:177-178 | the prefix is not checked: any id loses as many characters as the prefix has |
| Ingester.Headers | src/pleiades_aligner/ingester.py:240 | one stripped header per comma-separated piece |
| Ingester.Numbered | src/pleiades_aligner/ingester.py:251-252 | a repeated header becomes `h_0` .. `h_{k-1}` |
| Ingester.RenameFromLength | src/pleiades_aligner/ingester.py:245-253 | from any position the loop emits one name per occurrence of every header not yet handled |
| Ingester.RenameHeadersLength | src/pleiades_aligner/ingester.py:240-256 | renaming keeps the number of fields |
| Ingester.RenameHeadersNames | src/pleiades_aligner/ingester.py:245-253 | a unique header is kept and every copy of a repeated one is numbered |
| Ingester.NumberedDistinct | src/pleiades_aligner/ingester.py:250-252 | the names `h_0, ..., h_{k-1}` given to a repeated header are pairwise distinct |
| Ingester.RenameFromSplit | src/pleiades_aligner/ingester.py:245-253 | the renamed list is what the loop emits before position `p` followed by what it emits from `p` on |
| Ingester.RenameFromAt | src/pleiades_aligner/ingester.py:245-253 | at a header's first occurrence the loop emits the header itself if it occurs once, else `h_0, ..., h_{k-1}`; those names stand at that position of the output, and later occurrences emit nothing |
| Ingester.RenameListAt | src/pleiades_aligner/ingester.py:243-253 | when some header repeats, the names of each header stand in the renamed list at its first occurrence, in column order |
| Ingester.RenameHeadersUnique | src/pleiades_aligner/ingester.py:243-256 | without repeats the headers are returned unchanged |
| Ingester.Cleaned | src/pleiades_aligner/ingester.py:43-54 | every kept value is non-empty and neither starts with `(` nor ends with `)` |
| Ingester.Property | src/pleiades_aligner/ingester.py:40 | a listed property the place lacks is KeyError(field) |
| Ingester.PlaceAlignments | src/pleiades_aligner/ingester.py:36-66 | reading a place's alignments fails (KeyError) iff a configured field is missing |
| Ingester.PlaceAlignmentsMember | src/pleiades_aligner/ingester.py:39-65 | a place's alignments are exactly the union of its fields' contributions |
| Ingester.ContributionMember | src/pleiades_aligner/ingester.py:41-65 | a field contributes the qualified form of each normalised, kept piece carrying the field's prefix |
| Ingester.FalsyCleaned | src/pleiades_aligner/ingester.py:41-42 | a falsy value contributes nothing |
| Ingester.QualifiedParts | src/pleiades_aligner/ingester.py:56-65 | an id read from a field has the field's namespace, and the prefix plus its local part is the value read |
| Ingester.SetAlignments | src/pleiades_aligner/ingester.py:36-66 | succeeds iff every place can be read; each place's alignments are replaced and nothing else changes |
| Ingester.PlaceNames | src/pleiades_aligner/ingester.py:90-110 | fails iff a listed field is missing; every name is kept |
| Ingester.PlaceNamesMember | src/pleiades_aligner/ingester.py:93-109 | a place's names are exactly the normalised, kept pieces of its listed fields |
| Ingester.SetNames | src/pleiades_aligner/ingester.py:90-110 | succeeds iff every place can be read; each place's names are replaced and nothing else changes |
| Ingester.NormRaw | src/pleiades_aligner/ingester.py:85-88 | falsy values normalise to ""; a non-empty list or set is a TypeError |
| Ingester.UnsupportedCode | src/pleiades_aligner/ingester.py:74-76 | the unknown-code message holds the code right after "Unsupported feature type code '" and ends with the field |
| Ingester.UnsupportedCodeInjective | src/pleiades_aligner/ingester.py:74-76 | for one field, different codes give different messages |
| Ingester.FeatureType | src/pleiades_aligner/ingester.py:70-76 | succeeds iff the field exists and its normalised code is in the table, and then gives the table's entry for that code; otherwise KeyError for the field, TypeError for a non-text value, or a KeyError whose message names the unknown code and the field |
| Ingester.SetFeatureTypes | src/pleiades_aligner/ingester.py:68-76 | succeeds iff every place's code is known; each place gains the table entry of its normalised code and nothing else changes |
| Ingester.SetFeatureTypesError | src/pleiades_aligner/ingester.py:69-76 | the first place with an unknown code decides the KeyError |
| Ingester.Cell | src/pleiades_aligner/ingester.py:192 | `datum[key]` is the cell when the key was found and present, KeyError otherwise |
| Ingester.OtherKeys | src/pleiades_aligner/ingester.py:189-196 | the property fields are the fields other than the id field and, when both were found, the coordinate fields |
| Ingester.RowPoints | src/pleiades_aligner/ingester.py:194-195 | a point `[lon, lat]` exactly when both coordinate fields were found |
| Ingester.RowProperties | src/pleiades_aligner/ingester.py:197 | the properties are exactly the listed fields with the row's cells |
| Ingester.UniquePlace | src/pleiades_aligner/ingester.py:191-198 | a row's place has the cleaned id, the row's point and the property cells; fails iff a needed cell is missing or cleaning fails |
| Ingester.UniquePlaces | src/pleiades_aligner/ingester.py:190-200 | one place per row in row order, failing iff some row fails |
| Ingester.IngestUniqueRowsOmits | src/pleiades_aligner/ingester.py:185-200 | the places keep neither the id field nor, when both were found, the coordinate fields |
| Ingester.IngestUniqueRowsEmpty | src/pleiades_aligner/ingester.py:199-200 | without rows the held places are kept |
| Ingester.MergeRow | src/pleiades_aligner/ingester.py:156-167 | merging a row adds exactly its fields and leaves other properties alone; fails iff a cell is missing |
| Ingester.MergeRowAt | src/pleiades_aligner/ingester.py:156-167 | each distinct field is merged exactly once with its normalised cell |
| Ingester.MergeSummary | src/pleiades_aligner/ingester.py:158-167 | merging one more value extends the summary (text while values agree, then a set) |
| Ingester.GroupRow | src/pleiades_aligner/ingester.py:147-168 | a row adds its cleaned id in first-appearance order and changes no other place |
| Ingester.GroupRows | src/pleiades_aligner/ingester.py:146-168 | grouping lists each cleaned id once in first-appearance order with its place |
| Ingester.GroupRowShape | src/pleiades_aligner/ingester.py:147-168 | one more row keeps the grouping in that shape |
| Ingester.GroupRowValue | src/pleiades_aligner/ingester.py:156-167 | one more row keeps every field summarising the values read so far |
| Ingester.GroupRowsValues | src/pleiades_aligner/ingester.py:147-168 | after grouping, a field summarises all its rows' values |
| Ingester.IngestNonuniqueRows | src/pleiades_aligner/ingester.py:169-170 | without rows the held places are kept |
| Ingester.IngestNonuniqueRowsValues | src/pleiades_aligner/ingester.py:141-170 | a property is its rows' one agreed value as text, or the set of differing values |
| Ingester.IngestNonuniqueRowsOrder | src/pleiades_aligner/ingester.py:146-170 | one place per distinct cleaned id, in first-appearance order |
| Manto.SplitPair | scripts/manto.py:97 | `ns, id = qid.split(":")` succeeds iff there is exactly one colon, and `ns:id` is the input; otherwise ValueError |
| Manto.SplitPairQualified | scripts/manto.py:112 | every colon-free pair unpacks to itself |
| Manto.Entry | scripts/manto.py:114 | `group[ns][id]` exists iff both levels do |
| Manto.FirstHit | scripts/manto.py:111-121 | the scan answers false iff every id is passed over, else the outcome of the first id not passed over |
| Manto.FirstHitPrefix | scripts/manto.py:111-120 | the scan stops at the first id not passed over |
| Manto.ConcurrenceReciprocal | scripts/manto.py:110-121 | sets only `reciprocal`; errors are KeyError("alignments") or ValueError |
| Manto.ReciprocalLookMeans | scripts/manto.py:112-118 | one id is a hit iff its record points back at the MANTO id |
| Manto.ReciprocalIff | scripts/manto.py:110-121 | with well-formed ids, reciprocal iff some aligned record points back at `manto:<id>` |
| Manto.ReciprocalMalformed | scripts/manto.py:111-112 | a malformed id reached before any hit raises ValueError |
| Manto.OverlapLookMeans | scripts/manto.py:96-104 | one id is a hit iff it is a loaded gazetteer record sharing an element |
| Manto.Overlap | scripts/manto.py:96-107 | the only error of the name or type scan is ValueError |
| Manto.OverlapIff | scripts/manto.py:96-107 | with well-formed ids, a hit iff some aligned gazetteer record shares an element |
| Manto.ConcurrenceNames | scripts/manto.py:91-107 | no names leaves the group unchanged; otherwise only `name_concurrence` is set; the errors are KeyError("names") or KeyError("alignments") or ValueError |
| Manto.NamesIff | scripts/manto.py:91-107 | with names and well-formed ids, names concur iff an aligned gazetteer record shares one |
| Manto.ConcurrenceTypes | scripts/manto.py:123-140 | sets only `type_concurrence`, false for a place without types |
| Manto.TypesIff | scripts/manto.py:123-140 | with types and well-formed ids, types concur iff an aligned gazetteer record shares one |
| Manto.Concurrence | scripts/manto.py:84-89 | after the three checks `reciprocal` and `type_concurrence` are set, `name_concurrence` unless names were empty, and note and targets are unchanged |
| Manto.Classify | scripts/manto.py:242-263 | done iff reciprocal; pending iff not reciprocal and the note asks to discuss; otherwise, with both flags present, likely when both are true, probable when only names concur, asserted otherwise; RuntimeError without a type flag, KeyError for a missing reciprocal, discuss or name flag |
| Manto.IndexWith | scripts/manto.py:229-264 | the index fails iff some group cannot be filed, with that group's error; otherwise an id is in a bucket iff its group is filed there |
| Manto.IndexGroups | scripts/manto.py:229-264 | `index` succeeds iff every group can be filed |
| Manto.IndexPartition | scripts/manto.py:242-264 | a successful index partitions the MANTO ids over the buckets |
| Manto.NamelessGroupUnfiled | scripts/manto.py:242-263 | a group with no names passes the checks, yet filing it raises KeyError("name_concurrence") |
| Manto.ClassifyIntended | scripts/manto.py:242-263 | filing with a missing name flag read as false agrees with `index` wherever that succeeds and files such a group as asserted |
| Manto.IndexIntended | scripts/manto.py:229-264 | with the intended rule every checked group is filed |
| Manto.LastNote | scripts/manto.py:76-82 | the note given last for an id, none iff no note names it |
| Manto.Annotate | scripts/manto.py:66-82 | no group is added or removed, only notes change, and a group's note is the last one given for it |
| Manto.AnnotateDistinct | scripts/manto.py:76-82 | with one note per id each group carries exactly its note |
| Prioritize.CategoryFrom | scripts/prioritize3.py:130-154 | the first category from the k-th on whose criteria are met; none iff none is met |
| Prioritize.Category | scripts/prioritize3.py:130-154 | the first category (1..8) whose mode set equals the alignment's and whose labels, if any, include its proximity; none iff none fits |
| Prioritize.AllFourCategory | scripts/prioritize3.py:44-59 | with all four modes, identical or tight is 1, overlapping 2, close 3, otherwise uncategorised |
| Prioritize.NamedCategory | scripts/prioritize3.py:80-84 | assertion plus toponymy is always 8 |
| Prioritize.InferenceUncategorised | scripts/prioritize3.py:44-85 | no category takes inference alone |
| Prioritize.SupportedModesUncategorised | scripts/prioritize3.py:44-85 | no category takes an alignment whose modes are among assertion, proximity and inference |
| Prioritize.FirstWith | scripts/prioritize3.py:118-120 | the first kept element; IndexError iff none is kept |
| Prioritize.FirstWithIsFirst | scripts/prioritize3.py:118-120 | no earlier element is kept |
| Prioritize.FirstOther | scripts/prioritize3.py:176 | an element other than the given one; IndexError iff all equal it |
| Prioritize.Keep | scripts/prioritize3.py:107-109 | exactly the hashes of records touching the namespace are kept |
| Prioritize.KeepLast | scripts/prioritize3.py:107-109 | the last record with a hash wins |
| Prioritize.KeptOrder | scripts/prioritize3.py:116 | each kept hash once, in the order first read |
| Prioritize.Added | scripts/prioritize3.py:123-127 | adding creates the entry if missing and touches no other entry |
| Prioritize.KindOf | scripts/prioritize3.py:122-154 | inference-only iff modes are exactly {inference}; otherwise categorised as `Category` says, or dropped iff no category fits |
| Prioritize.File | scripts/prioritize3.py:116-154 | filing fails exactly with the primary-id error |
| Prioritize.CategoriseBy | scripts/prioritize3.py:116-154 | the loop succeeds iff every alignment has a primary id; an error is some alignment's |
| Prioritize.CategoriseByFiled | scripts/prioritize3.py:116-154 | each bucket holds exactly its place's inference-only or categorised alignments, and its categories are exactly those reached |
| Prioritize.FileListed | scripts/prioritize3.py:129-154 | filing one more alignment keeps every place with categories listed exactly once, with a bucket and a non-empty category set |
| Prioritize.CategoriseBySnoc | scripts/prioritize3.py:117-154 | the filing loop over a sequence is the loop over its prefix followed by filing the last alignment |
| Prioritize.CategoriseByInference | scripts/prioritize3.py:117-154 | after the loop, each place's inference-only bucket holds exactly the inference-only alignments of that place |
| Prioritize.CategoriseByCategorised | scripts/prioritize3.py:117-154 | after the loop, each place's categorised bucket holds exactly the categorised alignments of that place |
| Prioritize.CategoriseByCategories | scripts/prioritize3.py:117-154 | after the loop, each place's category set is exactly the categories its alignments reach |
| Prioritize.CategoriseByListed | scripts/prioritize3.py:117-154 | after the loop, every place with categories is listed exactly once |
| Prioritize.FileInference | scripts/prioritize3.py:122-128 | an inference-only alignment goes to its place's inference bucket |
| Prioritize.FileCategorised | scripts/prioritize3.py:143-148 | a categorised alignment goes to its place's bucket |
| Prioritize.FileCategories | scripts/prioritize3.py:149-153 | a place's categories grow by the category reached |
| Prioritize.Categorise | scripts/prioritize3.py:113-154 | the script's filing fails (IndexError) iff an alignment lacks a primary id; otherwise it is filed as the rules say |
| Prioritize.Lowest | scripts/prioritize3.py:159 | `min(cats)`: a member no larger than any other |
| Prioritize.Members | scripts/prioritize3.py:166-167 | exactly the places whose lowest category is c, each once |
| Prioritize.Rank | scripts/prioritize3.py:166-170 | a permutation of the places in descending number of categorised alignments |
| Prioritize.LinkFor | scripts/prioritize3.py:188-201 | the other side's entry: its description if carried, authorities, modes, and proximity and distance both dropped when either is missing |
| Prioritize.Describe | scripts/prioritize3.py:175-201 | listing an alignment fails iff it lacks an other id or namespace; it adds the other side's entry and the place's own description when carried |
| Prioritize.DescribeAllOk | scripts/prioritize3.py:173-201 | listing fails iff some alignment lacks an other id or namespace |
| Prioritize.DescribeAllKeys | scripts/prioritize3.py:173-201 | every categorised alignment leaves an entry for its other side |
| Prioritize.Attach | scripts/prioritize3.py:209-241 | an inference-only alignment leaves the listing unchanged when none of its authorities is listed; otherwise it fails with IndexError iff the other id or namespace is missing, and else always sets its other side's entry |
| Prioritize.AttachAll | scripts/prioritize3.py:202-241 | attaching never removes an entry |
| Prioritize.AttachAllSnoc | scripts/prioritize3.py:207-221 | attaching a sequence of inference-only alignments is attaching all but the last, then the last |
| Prioritize.AttachAllJustified | scripts/prioritize3.py:207-221 | each added entry is the other side of an inference-only alignment one of whose authorities was listed when its turn came |
| Prioritize.PlaceListing | scripts/prioritize3.py:171-241 | a place's listing has an entry for the other side of each categorised alignment |
| Prioritize.ListPlaces | scripts/prioritize3.py:171-241 | one listing per place, in order |
| Prioritize.SectionsFrom | scripts/prioritize3.py:157-165 | the category loop yields exactly the categories from `k` to 8, each mapped to its section, or the error of a section that failed |
| Prioritize.Sections | scripts/prioritize3.py:157-165 | the report has exactly the categories 1..8, each its section |
| Prioritize.Prioritise | scripts/prioritize3.py:105-241 | the report has categories 1..8 or the run fails with IndexError |
| Prioritize.SectionPlaces | scripts/prioritize3.py:159-170 | a place is listed under c iff c is its lowest category |
| Prioritize.SectionRanked | scripts/prioritize3.py:166-170 | within a category, places come in descending number of categorised alignments |
| Prioritize.SectionComplete | scripts/prioritize3.py:171-201 | a listed place's listing covers the other side of all its categorised alignments |
| Prioritize.PrioritisePlaces | scripts/prioritize3.py:113-170 | end to end: a place is under category c iff c is the lowest category its kept alignments reach |

## Left out

- Geometry and distance: `shapely.distance` and the `Point` geometry are not modelled. The distance between two places is a parameter of the proximity pass. Symmetry of that distance is required only by the lemmas that need it.
- Python's `hash()` of the identity string: the identity string itself is the key of the store. A collision of `hash()` values between different strings is not modelled.
- Iteration orders of Python sets and dicts are given as sequences by the caller:
  - ingesters and bins are visited in insertion order, and the members of a bin in an order given by the caller (the code iterates a set of `(namespace, place)` pairs). With a symmetric distance the order does not change the drafts (`Strategies.PairDraftSymmetric`), and registration is idempotent;
  - `Strategies.Primaries` and `Strategies.Candidates` take the store's iteration order as a parameter;
  - the buckets of `scripts/prioritize3.py` are listed in insertion order.
- `str.lower` and `str.strip` are modelled on ASCII only.
- The `textnorm` normaliser is a parameter.
- Exceptions: an operation that raises part-way returns an error without the partial state the Python object would keep.
- `deepcopy`, logging, `__str__`, titles (`_set_titles_from_properties`), `redirects`, `data_sources`, `_load_csv`, the BOM/encoding detection, JSON and file I/O are left out. The same goes for `group_alignments`, `spoonout` and the configuration code of `scripts/manto.py`.
- Manto groups hold the aligned records in their own `targets` field. In the script they are keys of the same dictionary as `names` and `alignments`, and a namespace called `names` would collide with them.
- Raw property values are text, lists or sets; other JSON values (numbers, nested dicts) are not modelled.
- Ingester.IngestNonuniqueRowsValues: stated for distinct field names only. With a repeated field name the Python loop merges the same cell twice, which the model computes but no lemma describes.
- Strategies.BridgeExists: gives a sufficient condition for the bridge to exist, not an exact one. `Strategies.InferenceDraftsError` states the exact condition.
- Strategies.AlignByInferenceRegistered: stated for a non-empty bridge. An empty bridge adds no authority, as `Strategies.InferenceDraft` states.
- Prioritize.Rank: proves a permutation in descending order. It does not prove the stability of Python's `sorted` among places with equal counts.
- The count and log variables of `scripts/prioritize3.py` (`place_count`, `alignment_count`) and the printed JSON are left out. The unused `inference_modes` field of the categories is left out too.
- The centroid distance is passed through as an opaque real.
- The script's dictionary aliasing (`results[..][other_pid] = a[other_namespace]` then mutated) is modelled as building a fresh entry. Each alignment is listed under one place only, so no entry is shared.

## Findings

| source | as written | input that shows it | evidently intended | confidence | as-written member | corrected member |
|---|---|---|---|---|---|---|
| scripts/manto.py:91-93 and scripts/manto.py:258 | `concurrence_names` returns without setting `name_concurrence` when the MANTO place has no names; `index` then reads `group["name_concurrence"]` and raises KeyError | a group with empty names, no alignments, empty feature types and no note: the checks succeed, then `index` raises KeyError("name_concurrence") | a missing name flag means no name concurrence, as `concurrence_types` does for missing types; the group is filed as asserted | medium, not executed | Manto.NamelessGroupUnfiled | Manto.ClassifyIntended |
