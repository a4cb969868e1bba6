/**
 * The heuristic grouping used when the text-synthesis service fails
 * (`simple_fallback_grouping` in `grouping/schema.py`): ACs are put in
 * keyword buckets, buckets are cut into chunks of at most
 * `max_ac_per_group`, and, when there are enough ACs, a small chunk is
 * absorbed into the group before it if that one has room.
 */
module GroupingFallback {
  import opened Wrappers
  import opened Strings
  import opened Seqs
  import opened PyJson
  import opened AcMaps
  import opened Keywords
  import opened GroupingSchema

  // ---------------------------------------------------------------------------
  // Buckets
  // ---------------------------------------------------------------------------

  /** The buckets of the heuristic, one per key of its `buckets` dictionary. */
  datatype BucketKind =
    | TokenJwt | PasswordHash | EmailValidation | Lockout | SessionCsrf | RateLimit
    | LogAudit | LogSecurity | LogMisc | Ui | OtherBucket
  {
    /** The bucket's name, used as group label and tag. */
    function Name(): string {
      match this
      case TokenJwt => "token_jwt"
      case PasswordHash => "password_hash"
      case EmailValidation => "email_validation"
      case Lockout => "lockout"
      case SessionCsrf => "session_csrf"
      case RateLimit => "rate_limit"
      case LogAudit => "log_audit"
      case LogSecurity => "log_security"
      case LogMisc => "log_misc"
      case Ui => "ui"
      case OtherBucket => "other"
    }
  }

  /** The keyword chain of `bucket(ac_text)`; the log rule answers `LogMisc` and is refined
      by the log kind afterwards. */
  const BUCKET_RULES: seq<Rule<BucketKind>> := [
    Rule(["jwt", "token"], TokenJwt),
    Rule(["password", "bcrypt", "hash", "ソルト"], PasswordHash),
    Rule(["email", "domain"], EmailValidation),
    Rule(["lock", "ロック", "failed", "失敗"], Lockout),
    Rule(["csrf", "session fixation"], SessionCsrf),
    Rule(["rate", "429"], RateLimit),
    Rule(["log", "ログ"], LogMisc),
    Rule(["ui", "mask", "画面"], Ui)]

  /** The inner `bucket(ac_text)` over a chain of rules: the first rule that fires on the
      lower-cased text names the bucket, a log AC is split further by its log kind, and an
      AC no rule fires on is `other`. */
  function BucketBy(rules: seq<Rule<BucketKind>>, acText: string): (b: BucketKind)
    requires forall j :: 0 <= j < |rules| ==> rules[j].outcome != OtherBucket
    ensures b == OtherBucket <==> forall i :: 0 <= i < |rules| ==> !Fires(rules[i], Lower(acText))
  {
    var c := Classify(rules, Lower(acText), OtherBucket);
    if c == LogMisc then
      match LogKind(acText)
      case Audit => LogAudit
      case Security => LogSecurity
      case _ => LogMisc
    else
      c
  }

  /** With a single rule `k` answering `LogMisc`, an AC lands in `log_audit`
      (`log_security`) exactly when rule `k` is the first to fire on it and its log kind is
      audit (security). */
  lemma BucketByLog(rules: seq<Rule<BucketKind>>, acText: string, k: int)
    requires forall j :: 0 <= j < |rules| ==> rules[j].outcome !in {OtherBucket, LogAudit, LogSecurity}
    requires 0 <= k < |rules| && rules[k].outcome == LogMisc
    requires forall j :: 0 <= j < |rules| && rules[j].outcome == LogMisc ==> j == k
    ensures BucketBy(rules, acText) == LogAudit <==> FirstFiring(rules, Lower(acText), k) && LogKind(acText) == Audit
    ensures BucketBy(rules, acText) == LogSecurity <==> FirstFiring(rules, Lower(acText), k) && LogKind(acText) == Security
  {
    ClassifyUniqueOutcome(rules, Lower(acText), OtherBucket, k);
    var c := Classify(rules, Lower(acText), OtherBucket);
    assert c != LogAudit && c != LogSecurity by {
      if exists i :: FirstFiring(rules, Lower(acText), i) && c == rules[i].outcome {
        var i :| FirstFiring(rules, Lower(acText), i) && c == rules[i].outcome;
      }
    }
  }

  /** The rule chain of the heuristic: the log rule is the only one answering `LogMisc`,
      and none answers `other` or a refined log bucket. */
  lemma BucketRules()
    ensures forall j :: 0 <= j < |BUCKET_RULES| ==> BUCKET_RULES[j].outcome !in {OtherBucket, LogAudit, LogSecurity}
    ensures BUCKET_RULES[6].outcome == LogMisc
    ensures forall j :: 0 <= j < |BUCKET_RULES| && BUCKET_RULES[j].outcome == LogMisc ==> j == 6
  {
  }

  /** `bucket(ac_text)` with the heuristic's rules. */
  function BucketOf(acText: string): (b: BucketKind)
    ensures b == OtherBucket <==> forall i :: 0 <= i < |BUCKET_RULES| ==> !Fires(BUCKET_RULES[i], Lower(acText))
  {
    BucketRules();
    BucketBy(BUCKET_RULES, acText)
  }

  /** The log buckets of the heuristic. */
  lemma BucketOfLog(acText: string)
    ensures BucketOf(acText) == LogAudit <==> FirstFiring(BUCKET_RULES, Lower(acText), 6) && LogKind(acText) == Audit
    ensures BucketOf(acText) == LogSecurity <==> FirstFiring(BUCKET_RULES, Lower(acText), 6) && LogKind(acText) == Security
  {
    BucketRules();
    BucketByLog(BUCKET_RULES, acText, 6);
  }

  /** An AC whose text mentions a JWT or a token lands in `token_jwt`, whatever else it says. */
  lemma TokenFirst(acText: string)
    requires ContainsAny(Lower(acText), ["jwt", "token"])
    ensures BucketOf(acText) == TokenJwt
  {
    ClassifyFirstRule(BUCKET_RULES, Lower(acText), OtherBucket, 0);
  }

  /** The bucket name of an AC text. */
  function BucketName(acText: string): string {
    BucketOf(acText).Name()
  }

  /** `buckets[name]`: ids in AC-map order. */
  datatype Bucket = Bucket(name: string, ids: seq<string>)

  function BucketIds(bs: seq<Bucket>): seq<string> {
    if |bs| == 0 then [] else bs[0].ids + BucketIds(bs[1..])
  }

  /** `buckets.get(name, [])`. */
  function IdsNamed(bs: seq<Bucket>, name: string): seq<string> {
    if |bs| == 0 then [] else if bs[0].name == name then bs[0].ids else IdsNamed(bs[1..], name)
  }

  /** `list(buckets.keys())`. */
  function NamesOf(bs: seq<Bucket>): seq<string> {
    if |bs| == 0 then [] else [bs[0].name] + NamesOf(bs[1..])
  }

  /** `buckets.setdefault(name, []).append(id)`. */
  function AddToBucket(bs: seq<Bucket>, name: string, id: string): (r: seq<Bucket>)
    ensures |r| == |bs| || |r| == |bs| + 1
  {
    if |bs| == 0 then [Bucket(name, [id])]
    else if bs[0].name == name then [Bucket(name, bs[0].ids + [id])] + bs[1..]
    else [bs[0]] + AddToBucket(bs[1..], name, id)
  }

  /** Appending can only bring in the key `name`. */
  lemma {:induction false} AddToBucketNameSet(bs: seq<Bucket>, name: string, id: string)
    ensures forall x :: x in NamesOf(AddToBucket(bs, name, id)) <==> x in NamesOf(bs) || x == name
  {
    var r := AddToBucket(bs, name, id);
    if |bs| == 0 {
      assert NamesOf(r) == [name];
    } else if bs[0].name == name {
      assert NamesOf(r) == NamesOf(bs);
    } else {
      AddToBucketNameSet(bs[1..], name, id);
      assert NamesOf(bs) == [bs[0].name] + NamesOf(bs[1..]);
      assert NamesOf(r) == [bs[0].name] + NamesOf(r[1..]);
    }
  }

  /** Appending keeps the keys unique. */
  lemma {:induction false} AddToBucketNames(bs: seq<Bucket>, name: string, id: string)
    requires Distinct(NamesOf(bs))
    ensures Distinct(NamesOf(AddToBucket(bs, name, id)))
  {
    var r := AddToBucket(bs, name, id);
    if |bs| == 0 {
      assert NamesOf(r) == [name];
    } else if bs[0].name == name {
      assert NamesOf(r) == NamesOf(bs);
    } else {
      var rest := AddToBucket(bs[1..], name, id);
      assert NamesOf(bs) == [bs[0].name] + NamesOf(bs[1..]);
      DistinctCons(bs[0].name, NamesOf(bs[1..]));
      AddToBucketNames(bs[1..], name, id);
      AddToBucketNameSet(bs[1..], name, id);
      assert NamesOf(r) == [bs[0].name] + NamesOf(rest);
      DistinctCons(bs[0].name, NamesOf(rest));
    }
  }

  /** Appending adds exactly one id to the lists. */
  lemma {:induction false} AddToBucketIds(bs: seq<Bucket>, name: string, id: string)
    ensures multiset(BucketIds(AddToBucket(bs, name, id))) == multiset(BucketIds(bs)) + multiset{id}
  {
    var r := AddToBucket(bs, name, id);
    if |bs| == 0 {
      assert BucketIds(r) == [id] + BucketIds(r[1..]);
    } else if bs[0].name == name {
      assert r[1..] == bs[1..];
      assert BucketIds(r) == bs[0].ids + [id] + BucketIds(bs[1..]);
      assert BucketIds(bs) == bs[0].ids + BucketIds(bs[1..]);
    } else {
      assert r[1..] == AddToBucket(bs[1..], name, id);
      AddToBucketIds(bs[1..], name, id);
      assert BucketIds(r) == bs[0].ids + BucketIds(r[1..]);
      assert BucketIds(bs) == bs[0].ids + BucketIds(bs[1..]);
    }
  }

  /** What `setdefault(...).append(id)` does to the lists: `id` goes to the end of its
      bucket's list and every other bucket is unchanged. */
  lemma {:induction false} AddToBucketContents(bs: seq<Bucket>, name: string, id: string, other: string)
    ensures IdsNamed(AddToBucket(bs, name, id), other)
         == if other == name then IdsNamed(bs, other) + [id] else IdsNamed(bs, other)
  {
    if |bs| > 0 {
      var r := AddToBucket(bs, name, id);
      if bs[0].name != name {
        assert r[1..] == AddToBucket(bs[1..], name, id);
        AddToBucketContents(bs[1..], name, id, other);
      } else {
        assert r[1..] == bs[1..];
      }
    }
  }

  /** The bucket names `bucketOf` gives the texts of `m`, in map order. */
  function NamesFor(m: seq<Entry>, bucketOf: string -> string): (r: seq<string>)
    ensures |r| == |m| && forall i :: 0 <= i < |m| ==> r[i] == bucketOf(m[i].1)
  {
    seq(|m|, i requires 0 <= i < |m| => bucketOf(m[i].1))
  }

  /** The bucketing loop over the AC map, in insertion order; `bucketOf` is the inner
      `bucket` function. */
  function BucketsOf(m: seq<Entry>, bucketOf: string -> string): seq<Bucket> {
    if |m| == 0 then []
    else AddToBucket(BucketsOf(m[..|m| - 1], bucketOf), bucketOf(m[|m| - 1].1), m[|m| - 1].0)
  }

  /** Bucketing neither drops nor repeats an id. */
  lemma {:induction false} BucketsOfIds(m: seq<Entry>, bucketOf: string -> string)
    ensures multiset(BucketIds(BucketsOf(m, bucketOf))) == multiset(Keys(m))
  {
    if |m| > 0 {
      var n := |m| - 1;
      assert Keys(m) == Keys(m[..n]) + [m[n].0];
      BucketsOfIds(m[..n], bucketOf);
      AddToBucketIds(BucketsOf(m[..n], bucketOf), bucketOf(m[n].1), m[n].0);
    }
  }

  /** The buckets' keys are unique, and every bucket is named by the bucket of some AC
      text. */
  lemma {:induction false} BucketsOfNames(m: seq<Entry>, bucketOf: string -> string)
    ensures Distinct(NamesOf(BucketsOf(m, bucketOf)))
    ensures forall x :: x in NamesOf(BucketsOf(m, bucketOf)) ==> x in NamesFor(m, bucketOf)
  {
    if |m| > 0 {
      var n := |m| - 1;
      assert NamesFor(m, bucketOf) == NamesFor(m[..n], bucketOf) + [bucketOf(m[n].1)];
      BucketsOfNames(m[..n], bucketOf);
      AddToBucketNames(BucketsOf(m[..n], bucketOf), bucketOf(m[n].1), m[n].0);
      AddToBucketNameSet(BucketsOf(m[..n], bucketOf), bucketOf(m[n].1), m[n].0);
    }
  }

  /** The entries whose text falls in the bucket called `name`. */
  function EntriesNamed(m: seq<Entry>, bucketOf: string -> string, name: string): seq<Entry> {
    Filter(m, (e: Entry) => bucketOf(e.1) == name)
  }

  /** The entries of `m` plus one more that fall in `name`: those of `m`, followed by the
      new entry when it falls there too. */
  lemma EntriesNamedSnoc(m: seq<Entry>, e: Entry, bucketOf: string -> string, name: string)
    ensures Keys(EntriesNamed(m + [e], bucketOf, name))
         == if bucketOf(e.1) == name then Keys(EntriesNamed(m, bucketOf, name)) + [e.0] else Keys(EntriesNamed(m, bucketOf, name))
  {
    KeysFilterSnoc(m, e, (x: Entry) => bucketOf(x.1) == name);
  }

  lemma KeysFilterSnoc(m: seq<Entry>, e: Entry, p: Entry -> bool)
    ensures Keys(Filter(m + [e], p)) == if p(e) then Keys(Filter(m, p)) + [e.0] else Keys(Filter(m, p))
  {
    FilterAppend(m, [e], p);
    FilterSingle(e, p);
    if p(e) {
      KeysSnoc(Filter(m, p), e);
    } else {
      assert Filter(m, p) + [] == Filter(m, p);
    }
  }

  lemma KeysSnoc(m: seq<Entry>, e: Entry)
    ensures Keys(m + [e]) == Keys(m) + [e.0]
  {
  }

  lemma FilterSingle<T(!new)>(x: T, p: T -> bool)
    ensures Filter([x], p) == if p(x) then [x] else []
  {
    assert [x][1..] == [];
  }

  /** Reference reading of the bucketing loop: the bucket called `name` holds exactly the
      ids of the ACs whose text falls in it, in AC-map order. */
  lemma {:induction false} BucketsOfContents(m: seq<Entry>, bucketOf: string -> string, name: string)
    ensures IdsNamed(BucketsOf(m, bucketOf), name) == Keys(EntriesNamed(m, bucketOf, name))
  {
    if |m| > 0 {
      var n := |m| - 1;
      assert m == m[..n] + [m[n]];
      BucketsOfContents(m[..n], bucketOf, name);
      AddToBucketContents(BucketsOf(m[..n], bucketOf), bucketOf(m[n].1), m[n].0, name);
      EntriesNamedSnoc(m[..n], m[n], bucketOf, name);
    }
  }

  // ---------------------------------------------------------------------------
  // Chunks
  // ---------------------------------------------------------------------------

  /** `[ids[i:i + size] for i in range(0, len(ids), size)]`. */
  function Chunks(ids: seq<string>, size: nat): (r: seq<seq<string>>)
    requires size >= 1
    ensures forall i :: 0 <= i < |r| ==> 1 <= |r[i]| <= size
    decreases |ids|
  {
    if |ids| == 0 then []
    else if |ids| <= size then [ids]
    else [ids[..size]] + Chunks(ids[size..], size)
  }

  /** Chunking keeps every id, in order. */
  lemma {:induction false} ChunksFlatten(ids: seq<string>, size: nat)
    requires size >= 1
    ensures Flatten(Chunks(ids, size)) == ids
    decreases |ids|
  {
    var r := Chunks(ids, size);
    if |ids| > size {
      ChunksFlatten(ids[size..], size);
      assert r[0] == ids[..size] && r[1..] == Chunks(ids[size..], size);
      assert ids == ids[..size] + ids[size..];
    } else if |ids| > 0 {
      assert r == [ids] && r[1..] == [];
    }
  }

  const FALLBACK_RATIONALE: string := "fallback heuristic bucket"

  /** The group the chunking loop appends for chunk number `gid` of bucket `name`. */
  function FallbackGroup(gid: nat, ids: seq<string>, name: string): Group {
    Group(DefaultGroupId(gid), ids, name, FALLBACK_RATIONALE, [name])
  }

  /** What every fallback group carries besides its ids and label: the fixed rationale,
      and the label as its only tag. */
  predicate Labelled(g: Group) {
    g.rationale == FALLBACK_RATIONALE && g.tags == [g.labelText]
  }

  /** Every group holds 1 to `size` ids. */
  predicate SizesWithin(gs: seq<Group>, size: int) {
    forall i :: 0 <= i < |gs| ==> 1 <= |gs[i].acIds| <= size
  }

  /** Groups carry the generated ids `G<gid>`, `G<gid + 1>`, ... */
  predicate NumberedFrom(gs: seq<Group>, gid: nat) {
    forall i :: 0 <= i < |gs| ==> gs[i].groupId == DefaultGroupId(gid + i)
  }

  /** Every group is labelled, by one of `names`. */
  predicate LabelledFrom(gs: seq<Group>, names: seq<string>) {
    forall i :: 0 <= i < |gs| ==> Labelled(gs[i]) && gs[i].labelText in names
  }

  /** The groups of one bucket, numbered from `gid`. */
  function BucketGroups(name: string, chunks: seq<seq<string>>, gid: nat): (r: seq<Group>)
    ensures |r| == |chunks|
    ensures forall i :: 0 <= i < |r| ==> r[i].acIds == chunks[i]
    ensures forall i :: 0 <= i < |r| ==> r[i].groupId == DefaultGroupId(gid + i)
    ensures forall i :: 0 <= i < |r| ==> r[i].labelText == name && Labelled(r[i])
  {
    seq(|chunks|, i requires 0 <= i < |chunks| => FallbackGroup(gid + i, chunks[i], name))
  }

  lemma {:induction false} BucketGroupsIds(name: string, chunks: seq<seq<string>>, gid: nat)
    ensures AllAcIds(BucketGroups(name, chunks, gid)) == Flatten(chunks)
  {
    if |chunks| > 0 {
      var r := BucketGroups(name, chunks, gid);
      assert r[1..] == BucketGroups(name, chunks[1..], gid + 1);
      BucketGroupsIds(name, chunks[1..], gid + 1);
    }
  }

  /** The chunking loop over every bucket, numbering groups from `gid`; each bucket's ids
      have already been through the dedup. */
  function ChunkGroups(bs: seq<Bucket>, size: nat, gid: nat): seq<Group>
    requires size >= 1
  {
    if |bs| == 0 then []
    else
      var chunks := Chunks(bs[0].ids, size);
      BucketGroups(bs[0].name, chunks, gid) + ChunkGroups(bs[1..], size, gid + |chunks|)
  }

  /** `ids = _dedup_preserve(ids)` for every bucket, as the chunking loop does first. */
  function DedupBuckets(bs: seq<Bucket>): (r: seq<Bucket>)
    ensures NamesOf(r) == NamesOf(bs)
  {
    if |bs| == 0 then []
    else
      var r := [Bucket(bs[0].name, DedupPreserve(bs[0].ids))] + DedupBuckets(bs[1..]);
      assert r[1..] == DedupBuckets(bs[1..]);
      r
  }

  /** Buckets whose ids are already without repeats are left as they are by the dedup. */
  lemma {:induction false} DedupBucketsOfDistinct(bs: seq<Bucket>)
    requires Distinct(BucketIds(bs))
    ensures DedupBuckets(bs) == bs
  {
    if |bs| > 0 {
      DistinctBucketIds(bs);
      DedupOfDistinct(bs[0].ids);
      DedupBucketsOfDistinct(bs[1..]);
      assert bs == [bs[0]] + bs[1..];
    }
  }

  /** Every chunk holds 1 to `size` ids. */
  lemma {:induction false} ChunkGroupsSizes(bs: seq<Bucket>, size: nat, gid: nat)
    requires size >= 1
    ensures SizesWithin(ChunkGroups(bs, size, gid), size)
  {
    if |bs| > 0 {
      var chunks := Chunks(bs[0].ids, size);
      var head := BucketGroups(bs[0].name, chunks, gid);
      var rest := ChunkGroups(bs[1..], size, gid + |chunks|);
      ChunkGroupsSizes(bs[1..], size, gid + |chunks|);
      var r := ChunkGroups(bs, size, gid);
      assert r == head + rest;
      forall i | 0 <= i < |r| ensures 1 <= |r[i].acIds| <= size {
        if i < |head| {
          assert r[i] == head[i];
          assert r[i].acIds == chunks[i];
          assert 1 <= |chunks[i]| <= size;
        } else {
          assert r[i] == rest[i - |head|];
          assert 1 <= |rest[i - |head|].acIds| <= size;
        }
      }
    }
  }

  /** Chunked groups are numbered consecutively from `gid`. */
  lemma {:induction false} ChunkGroupsNumbered(bs: seq<Bucket>, size: nat, gid: nat)
    requires size >= 1
    ensures NumberedFrom(ChunkGroups(bs, size, gid), gid)
  {
    if |bs| > 0 {
      var chunks := Chunks(bs[0].ids, size);
      var head := BucketGroups(bs[0].name, chunks, gid);
      var rest := ChunkGroups(bs[1..], size, gid + |chunks|);
      var r := ChunkGroups(bs, size, gid);
      assert r == head + rest;
      ChunkGroupsNumbered(bs[1..], size, gid + |chunks|);
      forall i | 0 <= i < |r| ensures r[i].groupId == DefaultGroupId(gid + i) {
        if i < |head| {
          assert r[i] == head[i];
        } else {
          assert r[i] == rest[i - |head|];
          assert gid + |chunks| + (i - |head|) == gid + i;
        }
      }
    }
  }

  /** Chunked groups are labelled by the name of the bucket they come from. */
  lemma {:induction false} ChunkGroupsLabelled(bs: seq<Bucket>, size: nat, gid: nat)
    requires size >= 1
    ensures LabelledFrom(ChunkGroups(bs, size, gid), NamesOf(bs))
  {
    if |bs| > 0 {
      var chunks := Chunks(bs[0].ids, size);
      var head := BucketGroups(bs[0].name, chunks, gid);
      var rest := ChunkGroups(bs[1..], size, gid + |chunks|);
      var r := ChunkGroups(bs, size, gid);
      assert r == head + rest;
      ChunkGroupsLabelled(bs[1..], size, gid + |chunks|);
      assert NamesOf(bs) == [bs[0].name] + NamesOf(bs[1..]);
      forall i | 0 <= i < |r| ensures Labelled(r[i]) && r[i].labelText in NamesOf(bs) {
        if i < |head| {
          assert r[i] == head[i];
        } else {
          assert r[i] == rest[i - |head|];
        }
      }
    }
  }

  /** Distinct bucket ids are distinct within the first bucket and among the rest. */
  lemma DistinctBucketIds(bs: seq<Bucket>)
    requires |bs| > 0
    requires Distinct(BucketIds(bs))
    ensures Distinct(bs[0].ids) && Distinct(BucketIds(bs[1..]))
  {
    assert BucketIds(bs) == bs[0].ids + BucketIds(bs[1..]);
    DistinctAppend(bs[0].ids, BucketIds(bs[1..]));
  }

  lemma AllAcIdsConcat(all: seq<Group>, head: seq<Group>, rest: seq<Group>, a: seq<string>, b: seq<string>)
    requires all == head + rest && AllAcIds(head) == a && AllAcIds(rest) == b
    ensures AllAcIds(all) == a + b
  {
    AllAcIdsAppend(head, rest);
  }

  /** Chunking keeps every id, in bucket order. */
  lemma {:induction false} ChunkGroupsIds(bs: seq<Bucket>, size: nat, gid: nat)
    requires size >= 1
    ensures AllAcIds(ChunkGroups(bs, size, gid)) == BucketIds(bs)
  {
    if |bs| > 0 {
      var chunks := Chunks(bs[0].ids, size);
      var head := BucketGroups(bs[0].name, chunks, gid);
      var rest := ChunkGroups(bs[1..], size, gid + |chunks|);
      ChunkGroupsIds(bs[1..], size, gid + |chunks|);
      assert AllAcIds(head) == bs[0].ids by {
        BucketGroupsIds(bs[0].name, chunks, gid);
        ChunksFlatten(bs[0].ids, size);
      }
      AllAcIdsConcat(ChunkGroups(bs, size, gid), head, rest, bs[0].ids, BucketIds(bs[1..]));
    }
  }

  // ---------------------------------------------------------------------------
  // Orphan absorption
  // ---------------------------------------------------------------------------

  /** Whether `g` is absorbed into the last merged group: it is small, there is a last
      group, and the two fit in one group. */
  predicate Absorbs(merged: seq<Group>, g: Group, minGroupSize: int, maxPerGroup: int) {
    |g.acIds| < minGroupSize && |merged| > 0 && |merged[|merged| - 1].acIds| + |g.acIds| <= maxPerGroup
  }

  /** One step of the absorption loop. */
  function Absorb(merged: seq<Group>, g: Group, minGroupSize: int, maxPerGroup: int): seq<Group> {
    if Absorbs(merged, g, minGroupSize, maxPerGroup) then
      var last := merged[|merged| - 1];
      merged[..|merged| - 1] + [last.(acIds := DedupPreserve(last.acIds + g.acIds))]
    else
      merged + [g]
  }

  /** The absorption loop over `groups`, left to right. */
  function MergeOrphans(gs: seq<Group>, minGroupSize: int, maxPerGroup: int): (r: seq<Group>)
    ensures |r| <= |gs|
  {
    if |gs| == 0 then []
    else Absorb(MergeOrphans(gs[..|gs| - 1], minGroupSize, maxPerGroup), gs[|gs| - 1], minGroupSize, maxPerGroup)
  }

  /** When the last group and `g` share no id, absorbing only concatenates: the ids of the
      result are the ids before followed by the ids of `g`. */
  lemma AbsorbIds(m: seq<Group>, g: Group, minGroupSize: int, maxPerGroup: int)
    requires Absorbs(m, g, minGroupSize, maxPerGroup) ==> Distinct(m[|m| - 1].acIds + g.acIds)
    ensures AllAcIds(Absorb(m, g, minGroupSize, maxPerGroup)) == AllAcIds(m) + g.acIds
    ensures Absorbs(m, g, minGroupSize, maxPerGroup) ==>
      Absorb(m, g, minGroupSize, maxPerGroup)[|m| - 1].acIds == m[|m| - 1].acIds + g.acIds
  {
    if Absorbs(m, g, minGroupSize, maxPerGroup) {
      var k := |m| - 1;
      var merged := AbsorbMerged(m, g, minGroupSize, maxPerGroup);
      AllAcIdsAppend(m[..k], [merged]);
      AllAcIdsSingle(merged);
      AllAcIdsLast(m);
      AppendAssoc(AllAcIds(m[..k]), m[k].acIds, g.acIds);
    } else {
      AllAcIdsAppend(m, [g]);
      AllAcIdsSingle(g);
    }
  }

  /** Absorbing into a last group it shares no id with replaces that group by one holding
      both lists of ids, concatenated. */
  lemma AbsorbMerged(m: seq<Group>, g: Group, minGroupSize: int, maxPerGroup: int) returns (merged: Group)
    requires Absorbs(m, g, minGroupSize, maxPerGroup)
    requires Distinct(m[|m| - 1].acIds + g.acIds)
    ensures merged.acIds == m[|m| - 1].acIds + g.acIds
    ensures Absorb(m, g, minGroupSize, maxPerGroup) == m[..|m| - 1] + [merged]
  {
    var last := m[|m| - 1];
    DedupOfDistinct(last.acIds + g.acIds);
    merged := last.(acIds := last.acIds + g.acIds);
  }

  /** Ids without repeats stay without repeats in the last group followed by `tail`. */
  lemma LastDistinct(m: seq<Group>, tail: seq<string>)
    requires |m| > 0
    requires Distinct(AllAcIds(m) + tail)
    ensures Distinct(m[|m| - 1].acIds + tail)
  {
    var k := |m| - 1;
    AllAcIdsLast(m);
    AppendAssoc(AllAcIds(m[..k]), m[k].acIds, tail);
    DistinctAppend(AllAcIds(m[..k]), m[k].acIds + tail);
  }

  /** The ids of a list of groups without repeats split into those of all but the last
      group and those of the last, again without repeats. */
  lemma DistinctInit(gs: seq<Group>)
    requires |gs| > 0
    requires Distinct(AllAcIds(gs))
    ensures Distinct(AllAcIds(gs[..|gs| - 1]) + gs[|gs| - 1].acIds)
    ensures Distinct(AllAcIds(gs[..|gs| - 1]))
  {
    AllAcIdsLast(gs);
    DistinctAppend(AllAcIds(gs[..|gs| - 1]), gs[|gs| - 1].acIds);
  }

  /** Absorption moves ids between groups but never drops or repeats one. */
  lemma {:induction false} MergeOrphansIds(gs: seq<Group>, minGroupSize: int, maxPerGroup: int)
    requires Distinct(AllAcIds(gs))
    ensures AllAcIds(MergeOrphans(gs, minGroupSize, maxPerGroup)) == AllAcIds(gs)
  {
    if |gs| > 0 {
      var n := |gs| - 1;
      DistinctInit(gs);
      MergeOrphansIds(gs[..n], minGroupSize, maxPerGroup);
      var m := MergeOrphans(gs[..n], minGroupSize, maxPerGroup);
      if |m| > 0 {
        LastDistinct(m, gs[n].acIds);
      }
      AbsorbIds(m, gs[n], minGroupSize, maxPerGroup);
      AllAcIdsLast(gs);
    }
  }

  /** The size bounds and the orphan invariant: every group has 1 to `maxPerGroup` ids,
      and a group below `minGroupSize` after the first could not join the one before it. */
  predicate MergedSizes(r: seq<Group>, minGroupSize: int, maxPerGroup: int) {
    && SizesWithin(r, maxPerGroup)
    && (forall i :: 0 < i < |r| && |r[i].acIds| < minGroupSize ==> |r[i - 1].acIds| + |r[i].acIds| > maxPerGroup)
  }

  /** One absorption step keeps the size bounds and the orphan invariant, provided a
      merged group is as large as its two parts together. */
  lemma AbsorbSizes(m: seq<Group>, g: Group, minGroupSize: int, maxPerGroup: int)
    requires MergedSizes(m, minGroupSize, maxPerGroup)
    requires 1 <= |g.acIds| <= maxPerGroup
    requires Absorbs(m, g, minGroupSize, maxPerGroup) ==>
      |Absorb(m, g, minGroupSize, maxPerGroup)[|m| - 1].acIds| == |m[|m| - 1].acIds| + |g.acIds|
    ensures MergedSizes(Absorb(m, g, minGroupSize, maxPerGroup), minGroupSize, maxPerGroup)
  {
    var r := Absorb(m, g, minGroupSize, maxPerGroup);
    if Absorbs(m, g, minGroupSize, maxPerGroup) {
      var k := |m| - 1;
      assert |r| == |m|;
      assert forall i :: 0 <= i < k ==> r[i] == m[i];
    } else {
      assert forall i :: 0 <= i < |m| ==> r[i] == m[i];
      assert r[|m|] == g;
    }
  }

  lemma {:induction false} MergeOrphansSizes(gs: seq<Group>, minGroupSize: int, maxPerGroup: int)
    requires SizesWithin(gs, maxPerGroup)
    requires Distinct(AllAcIds(gs))
    ensures MergedSizes(MergeOrphans(gs, minGroupSize, maxPerGroup), minGroupSize, maxPerGroup)
  {
    if |gs| > 0 {
      var n := |gs| - 1;
      DistinctInit(gs);
      MergeOrphansSizes(gs[..n], minGroupSize, maxPerGroup);
      MergeOrphansIds(gs[..n], minGroupSize, maxPerGroup);
      var m := MergeOrphans(gs[..n], minGroupSize, maxPerGroup);
      if |m| > 0 {
        LastDistinct(m, gs[n].acIds);
      }
      AbsorbIds(m, gs[n], minGroupSize, maxPerGroup);
      AbsorbSizes(m, gs[n], minGroupSize, maxPerGroup);
    }
  }

  /** Absorption keeps group ids distinct and invents none. */
  lemma {:induction false} MergeOrphansGroupIds(gs: seq<Group>, minGroupSize: int, maxPerGroup: int)
    requires Distinct(GroupIdsOf(gs))
    ensures Distinct(GroupIdsOf(MergeOrphans(gs, minGroupSize, maxPerGroup)))
    ensures forall x :: x in GroupIdsOf(MergeOrphans(gs, minGroupSize, maxPerGroup)) ==> x in GroupIdsOf(gs)
  {
    if |gs| > 0 {
      var n := |gs| - 1;
      var pre := gs[..n];
      var g := gs[n];
      assert GroupIdsOf(gs) == GroupIdsOf(pre) + [g.groupId];
      DistinctAppend(GroupIdsOf(pre), [g.groupId]);
      MergeOrphansGroupIds(pre, minGroupSize, maxPerGroup);
      var m := MergeOrphans(pre, minGroupSize, maxPerGroup);
      var r := MergeOrphans(gs, minGroupSize, maxPerGroup);
      assert r == Absorb(m, g, minGroupSize, maxPerGroup);
      if Absorbs(m, g, minGroupSize, maxPerGroup) {
        assert GroupIdsOf(r) == GroupIdsOf(m);
      } else {
        assert g.groupId !in GroupIdsOf(m);
        assert GroupIdsOf(r) == GroupIdsOf(m) + [g.groupId];
        assert forall i :: 0 <= i < |m| ==> r[i] == m[i];
      }
    }
  }

  /** Absorption changes only id lists, so every group stays labelled, by a label it
      had before. */
  lemma {:induction false} MergeOrphansLabelled(gs: seq<Group>, minGroupSize: int, maxPerGroup: int, names: seq<string>)
    requires LabelledFrom(gs, names)
    ensures LabelledFrom(MergeOrphans(gs, minGroupSize, maxPerGroup), names)
  {
    if |gs| > 0 {
      var n := |gs| - 1;
      MergeOrphansLabelled(gs[..n], minGroupSize, maxPerGroup, names);
      var m := MergeOrphans(gs[..n], minGroupSize, maxPerGroup);
      var r := MergeOrphans(gs, minGroupSize, maxPerGroup);
      assert r == Absorb(m, gs[n], minGroupSize, maxPerGroup);
      if Absorbs(m, gs[n], minGroupSize, maxPerGroup) {
        assert forall i :: 0 <= i < |m| - 1 ==> r[i] == m[i];
        assert r[|m| - 1].labelText == m[|m| - 1].labelText;
      } else {
        assert forall i :: 0 <= i < |m| ==> r[i] == m[i];
      }
    }
  }

  // ---------------------------------------------------------------------------
  // simple_fallback_grouping
  // ---------------------------------------------------------------------------

  const FALLBACK_META: Json := JObj(map["fallback" := JBool(true)])

  /** The groups before absorption: every bucket cut into chunks, numbered from 1. */
  function Chunked(acMap: AcMap, maxPerGroup: int): seq<Group>
    requires maxPerGroup >= 1
  {
    ChunkGroups(DedupBuckets(BucketsOf(acMap, BucketName)), maxPerGroup, 1)
  }

  /** `simple_fallback_grouping`. A `max_ac_per_group` below one is excluded: Python's
      `range` raises on a zero step and yields nothing on a negative one. */
  function FallbackGrouping(acMap: AcMap, maxPerGroup: int, minGroupSize: int): (r: Grouping)
    requires maxPerGroup >= 1
    ensures r.meta == FALLBACK_META
  {
    var chunked := Chunked(acMap, maxPerGroup);
    Grouping(
      if |acMap| >= minGroupSize + 2 then MergeOrphans(chunked, minGroupSize, maxPerGroup) else chunked,
      FALLBACK_META)
  }

  lemma DefaultGroupIdInjective(a: nat, b: nat)
    requires DefaultGroupId(a) == DefaultGroupId(b)
    ensures a == b
  {
    assert DefaultGroupId(a)[1..] == PadNat(a, 2);
    assert DefaultGroupId(b)[1..] == PadNat(b, 2);
    PadNatInjective(a, b, 2);
  }

  lemma ChunkedGroupIdsDistinct(bs: seq<Bucket>, size: nat)
    requires size >= 1
    ensures Distinct(GroupIdsOf(ChunkGroups(bs, size, 1)))
  {
    var chunked := ChunkGroups(bs, size, 1);
    ChunkGroupsNumbered(bs, size, 1);
    forall i, j | 0 <= i < j < |chunked| ensures chunked[i].groupId != chunked[j].groupId {
      if chunked[i].groupId == chunked[j].groupId {
        DefaultGroupIdInjective(1 + i, 1 + j);
      }
    }
  }

  /** Before absorption the groups already partition the AC map: ids distinct and
      covering, group ids distinct, labels taken from the ACs' buckets. */
  lemma ChunkedPartition(acMap: AcMap, maxPerGroup: int)
    requires maxPerGroup >= 1
    ensures multiset(AllAcIds(Chunked(acMap, maxPerGroup))) == multiset(Keys(acMap))
    ensures Distinct(AllAcIds(Chunked(acMap, maxPerGroup)))
    ensures SizesWithin(Chunked(acMap, maxPerGroup), maxPerGroup)
    ensures Distinct(GroupIdsOf(Chunked(acMap, maxPerGroup)))
    ensures LabelledFrom(Chunked(acMap, maxPerGroup), NamesFor(acMap, BucketName))
  {
    var bs := BucketsOf(acMap, BucketName);
    BucketsOfIds(acMap, BucketName);
    BucketsOfNames(acMap, BucketName);
    KeysDistinct(acMap);
    DistinctOfSameMultiset(BucketIds(bs), Keys(acMap));
    DedupBucketsOfDistinct(bs);
    ChunkGroupsIds(bs, maxPerGroup, 1);
    ChunkedGroupIdsDistinct(bs, maxPerGroup);
    ChunkGroupsLabelled(bs, maxPerGroup, 1);
    ChunkGroupsSizes(bs, maxPerGroup, 1);
  }

  /** The fallback is a partition of the AC map: every AC in exactly one group, in groups
      of 1 to `max_ac_per_group` ids with distinct group ids, each labelled by the bucket
      of one of the ACs; when absorption ran, every small group after the first follows a
      group it could not join. */
  lemma FallbackPartition(acMap: AcMap, maxPerGroup: int, minGroupSize: int)
    requires maxPerGroup >= 1
    ensures multiset(AllAcIds(FallbackGrouping(acMap, maxPerGroup, minGroupSize).groups)) == multiset(Keys(acMap))
    ensures Distinct(AllAcIds(FallbackGrouping(acMap, maxPerGroup, minGroupSize).groups))
    ensures SizesWithin(FallbackGrouping(acMap, maxPerGroup, minGroupSize).groups, maxPerGroup)
    ensures Distinct(GroupIdsOf(FallbackGrouping(acMap, maxPerGroup, minGroupSize).groups))
    ensures LabelledFrom(FallbackGrouping(acMap, maxPerGroup, minGroupSize).groups, NamesFor(acMap, BucketName))
    ensures |acMap| >= minGroupSize + 2 ==>
      MergedSizes(FallbackGrouping(acMap, maxPerGroup, minGroupSize).groups, minGroupSize, maxPerGroup)
  {
    var chunked := Chunked(acMap, maxPerGroup);
    ChunkedPartition(acMap, maxPerGroup);
    if |acMap| >= minGroupSize + 2 {
      MergeOrphansIds(chunked, minGroupSize, maxPerGroup);
      MergeOrphansSizes(chunked, minGroupSize, maxPerGroup);
      MergeOrphansGroupIds(chunked, minGroupSize, maxPerGroup);
      MergeOrphansLabelled(chunked, minGroupSize, maxPerGroup, NamesFor(acMap, BucketName));
    }
  }
}
