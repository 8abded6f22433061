/** Is a planned unit already in its leaf? Granule ids, their hash, and the lazy classification of a leaf. */
module Dedup {
  import opened Prelude
  import Encoding

  // ---------------------------------------------------------------- granule ids

  /** A granule entry: an href or bare id, a paired-asset mapping, or one with no identity at all. */
  datatype Granule = Href(text: string) | Paired(url: string) | Nameless

  function AfterSlash(s: string): string {
    if s == [] || s[|s| - 1] == '/' then [] else AfterSlash(s[..|s| - 1]) + [s[|s| - 1]]
  }

  /** `canonical_granule_id`: the basename; nothing when the entry is malformed, which raises. */
  function Canonical(g: Granule): Option<string> {
    match g
    case Nameless => None
    case Href(text) => if text == "" then None else Some(AfterSlash(StripSlashes(text)))
    case Paired(url) => if url == "" then None else Some(AfterSlash(StripSlashes(url)))
  }

  function Canonicals(gs: seq<Granule>): (r: Option<seq<string>>)
    ensures r.Some? ==> |r.value| == |gs|
  {
    if gs == [] then Some([])
    else
      var init, last := Canonicals(gs[..|gs| - 1]), Canonical(gs[|gs| - 1]);
      if init.None? || last.None? then None else Some(init.value + [last.value])
  }

  lemma {:induction false} AfterSlashOf(prefix: string, name: string)
    requires '/' !in name
    ensures AfterSlash(prefix + "/" + name) == name && AfterSlash(name) == name
  {
    if name == [] {
      assert prefix + "/" + name == prefix + "/";
    } else {
      var n := |name| - 1;
      AfterSlashOf(prefix, name[..n]);
      assert (prefix + "/" + name)[..|prefix + "/" + name| - 1] == prefix + "/" + name[..n];
      assert name == name[..n] + [name[n]];
    }
  }

  /** One granule has one id, whatever the driver's href form: with or without a prefix, alone or paired. */
  lemma OneIdPerGranule(prefix: string, name: string)
    requires name != "" && '/' !in name
    ensures Canonical(Href(prefix + "/" + name)) == Canonical(Href(name)) == Canonical(Paired(prefix + "/" + name))
            == Some(name)
  {
    AfterSlashOf(prefix, name);
    assert (prefix + "/" + name)[|prefix + "/" + name| - 1] == name[|name| - 1];
    assert name[|name| - 1] in name;
  }

  /** `granules_sha256` up to the hash function: what is digested, and nothing for no ids. */
  function GranulesHash(ids: seq<string>): Option<string> {
    if ids == [] then None else Some(Encoding.CombinedPreimage(ids))
  }

  predicate Lines(ids: seq<string>) {
    forall i :: 0 <= i < |ids| ==> Encoding.Digest(ids[i])
  }

  lemma HashExact(a: seq<string>, b: seq<string>)
    requires Lines(a) && Lines(b)
    ensures GranulesHash(a) == GranulesHash(b) <==> multiset(a) == multiset(b)
  {
    Encoding.CombinedExact(a, b);
    assert |multiset(a)| == |a| && |multiset(b)| == |b|;
  }

  // ---------------------------------------------------------------- what a leaf records

  /** The stats sidecar; some leaves carry their ids on it. */
  datatype Record = Record(semanticHash: Option<string>, granulesHash: Option<string>, legacyIds: Option<seq<Granule>>)

  /** The granule-id object beside the sidecar. */
  datatype Sibling = Sibling(ids: Option<seq<Granule>>, granulesHash: Option<string>)

  /** `leaf_recorded_ids`: the sibling's list if it pairs with the sidecar, or else the sidecar's own. */
  function RecordedIds(record: Record, sibling: Option<Sibling>): Option<seq<Granule>> {
    if sibling.Some? && sibling.value.ids.Some? && sibling.value.granulesHash == record.granulesHash
    then sibling.value.ids
    else record.legacyIds
  }

  predicate Hashes(ids: seq<Granule>, hash: Option<string>) {
    Canonicals(ids).Some? && hash == GranulesHash(Canonicals(ids).value)
  }

  /** If every object hashes the list it carries, then so does the sidecar hash the list that is loaded, even when the
      sibling beside it is left over from another write. */
  lemma TornWriteIsCaught(record: Record, sibling: Option<Sibling>)
    requires record.legacyIds.Some? ==> Hashes(record.legacyIds.value, record.granulesHash)
    requires sibling.Some? && sibling.value.ids.Some? ==> Hashes(sibling.value.ids.value, sibling.value.granulesHash)
    ensures RecordedIds(record, sibling).Some? ==> Hashes(RecordedIds(record, sibling).value, record.granulesHash)
  {
  }

  // ---------------------------------------------------------------- classification

  datatype Action = Skip | Rewrite | Refuse

  datatype Classification =
    Equal | Contraction | Mixed | Expansion | SemanticMismatch | IdMultisetDrift | NoSidecar | UnknownPlanned
    | UnrecordedIds

  datatype Verdict = Verdict(action: Action, classification: Classification, missing: set<string>)

  /** Malformed ids raise; otherwise a verdict, and whether the recorded list was fetched for it. */
  datatype Outcome = Raises | Says(verdict: Verdict, loaded: bool)

  predicate SemanticMatch(record: Record, semanticHash: Option<string>) {
    semanticHash.Some? && record.semanticHash == semanticHash
  }

  predicate HashesMatch(record: Record, planned: seq<string>) {
    record.granulesHash.Some? && record.granulesHash == GranulesHash(planned)
  }

  /** The id-set difference. */
  function Diff(semanticMatch: bool, recorded: seq<string>, planned: seq<string>): Verdict {
    var missing := AsSet(recorded) - AsSet(planned);
    if missing != {} then
      Verdict(Refuse, if AsSet(planned) - AsSet(recorded) != {} then Mixed else Contraction, missing)
    else if AsSet(planned) == AsSet(recorded) then
      Verdict(Rewrite, if semanticMatch then IdMultisetDrift else SemanticMismatch, {})
    else Verdict(Rewrite, Expansion, {})
  }

  /** `classify_leaf_identity`. `loader` is absent, or what calling it would return. */
  function Classify(recorded: Option<Record>, semanticHash: Option<string>, plannedIds: Option<seq<Granule>>,
                    loader: Option<Option<seq<Granule>>>): Outcome {
    if recorded.None? then Says(Verdict(Rewrite, NoSidecar, {}), false)
    else if plannedIds.None? then Says(Verdict(Rewrite, UnknownPlanned, {}), false)
    else
      var record, planned := recorded.value, Canonicals(plannedIds.value);
      if planned.None? then Raises
      else
        var semanticMatch := SemanticMatch(record, semanticHash);
        if HashesMatch(record, planned.value) then
          Says(if semanticMatch then Verdict(Skip, Equal, {}) else Verdict(Rewrite, SemanticMismatch, {}), false)
        else
          var ids := if loader.Some? then loader.value else None;
          if ids.None? then Says(Verdict(Rewrite, UnrecordedIds, {}), loader.Some?)
          else
            var recordedIds := Canonicals(ids.value);
            if recordedIds.None? then Raises else Says(Diff(semanticMatch, recordedIds.value, planned.value), true)
  }

  /** What the identity pair means, ids in hand: same semantics over the same granules, each as often, is current. */
  function Eager(semanticMatch: bool, recorded: seq<string>, planned: seq<string>): Verdict {
    if multiset(recorded) == multiset(planned) then
      if semanticMatch then Verdict(Skip, Equal, {}) else Verdict(Rewrite, SemanticMismatch, {})
    else Diff(semanticMatch, recorded, planned)
  }

  lemma EmptyDifference(a: set<string>, b: set<string>)
    ensures a - b == {} <==> a <= b
  {
    if a - b == {} {
      forall x | x in a ensures x in b {
        assert x !in a - b;
      }
    }
  }

  /** How the two sets lie to each other decides the verdict once the hashes differ. */
  lemma DiffExact(semanticMatch: bool, recorded: seq<string>, planned: seq<string>)
    ensures var d, r, p := Diff(semanticMatch, recorded, planned), AsSet(recorded), AsSet(planned);
            && (d.action.Refuse? <==> !(r <= p))
            && (d.classification == Contraction <==> p < r)
            && (d.classification == Mixed <==> !(r <= p) && !(p <= r))
            && (d.classification == Expansion <==> r < p)
            && (d.classification in {IdMultisetDrift, SemanticMismatch} <==> r == p)
            && !d.action.Skip?
  {
    var r, p := AsSet(recorded), AsSet(planned);
    EmptyDifference(r, p);
    EmptyDifference(p, r);
  }

  lemma SameMultisetSameSet(a: seq<string>, b: seq<string>)
    requires multiset(a) == multiset(b)
    ensures AsSet(a) == AsSet(b)
  {
    forall x ensures x in a <==> x in b {
      assert x in a <==> x in multiset(a);
      assert x in b <==> x in multiset(b);
    }
  }

  /**
   Comparing hashes first and fetching the list only when they differ gives the verdict of comparing the lists, with
   one exception: a unit that plans nothing over a leaf that recorded nothing has no hash to compare, and is
   rewritten although it is current. The list is fetched exactly when there is no match of hashes.
   */
  lemma LazyIsEagerExactly(record: Record, semanticHash: Option<string>, plannedIds: seq<Granule>, ids: seq<Granule>)
    requires Canonicals(plannedIds).Some? && Lines(Canonicals(plannedIds).value)
    requires Hashes(ids, record.granulesHash) && Lines(Canonicals(ids).value)
    ensures var r := Classify(Some(record), semanticHash, Some(plannedIds), Some(Some(ids)));
            var planned, recorded := Canonicals(plannedIds).value, Canonicals(ids).value;
            && r.Says?
            && (r.verdict == Eager(SemanticMatch(record, semanticHash), recorded, planned)
                <==> !(planned == [] && recorded == [] && SemanticMatch(record, semanticHash)))
            && (r.loaded <==> multiset(recorded) != multiset(planned) || planned == [])
  {
    var planned, recorded := Canonicals(plannedIds).value, Canonicals(ids).value;
    HashExact(recorded, planned);
    assert |multiset(recorded)| == |recorded| && |multiset(planned)| == |planned|;
    if multiset(recorded) == multiset(planned) {
      SameMultisetSameSet(recorded, planned);
    }
  }

  /** Ids are named as missing exactly when the verdict is to refuse, and then they are the recorded ids that the
      plan no longer lists; nothing is fetched unless the leaf is known, planned for, and its hash differs. */
  lemma RefusalsNameIds(recorded: Option<Record>, semanticHash: Option<string>, plannedIds: Option<seq<Granule>>,
                        loader: Option<Option<seq<Granule>>>)
    ensures var r := Classify(recorded, semanticHash, plannedIds, loader);
            && (r.Says? ==> (r.verdict.missing != {} <==> r.verdict.action.Refuse?))
            && (r.Says? && r.verdict.action.Refuse? ==>
                  && r.loaded && loader.Some? && loader.value.Some? && plannedIds.Some?
                  && Canonicals(loader.value.value).Some? && Canonicals(plannedIds.value).Some?
                  && forall x :: x in r.verdict.missing <==>
                       x in Canonicals(loader.value.value).value && x !in Canonicals(plannedIds.value).value)
            && (r.Says? && r.loaded ==>
                  && recorded.Some? && plannedIds.Some? && Canonicals(plannedIds.value).Some?
                  && !HashesMatch(recorded.value, Canonicals(plannedIds.value).value))
  {
  }

  // ---------------------------------------------------------------- shard status

  datatype Status = Hit | Stale | Miss | StatusRaises

  /** `shard_status` of a leaf: its stamp, its sidecar, the run's semantic hash and catalog. */
  function ShardStatus(stamped: bool, sidecar: Option<Record>, semanticHash: string,
                       granuleIds: Option<seq<Granule>>): Status {
    if !stamped then Miss
    else if sidecar.None? then Stale
    else
      var record := sidecar.value;
      if granuleIds.Some? && Canonicals(granuleIds.value).None? then StatusRaises
      else if record.semanticHash != Some(semanticHash) then Stale
      else if granuleIds.Some? && record.granulesHash != GranulesHash(Canonicals(granuleIds.value).value) then Stale
      else Hit
  }

  /** The two deduplicators agree on which stamped leaves are current, except again on the empty unit over a leaf
      without a catalog hash: absent equals absent for the one and is no match for the other. */
  lemma SkipIsHitExactly(record: Record, semanticHash: string, plannedIds: seq<Granule>,
                         loader: Option<Option<seq<Granule>>>)
    requires Canonicals(plannedIds).Some?
    ensures var r := Classify(Some(record), Some(semanticHash), Some(plannedIds), loader);
            ((r.Says? && r.verdict.action.Skip?)
              <==> ShardStatus(true, Some(record), semanticHash, Some(plannedIds)) == Hit)
            <==> !(plannedIds == [] && record.granulesHash.None? && record.semanticHash == Some(semanticHash))
  {
  }

  /** A unit that plans nothing over a leaf that recorded nothing: current by its lists and a hit for the one, yet
      rewritten by the other. */
  lemma EmptyUnitRewritten(semanticHash: string)
    ensures var record := Record(Some(semanticHash), None, Some([]));
            && Hashes([], record.granulesHash)
            && Eager(SemanticMatch(record, Some(semanticHash)), [], []) == Verdict(Skip, Equal, {})
            && ShardStatus(true, Some(record), semanticHash, Some([])) == Hit
            && Classify(Some(record), Some(semanticHash), Some([]), Some(Some([])))
               == Says(Verdict(Rewrite, IdMultisetDrift, {}), true)
  {
  }
}
