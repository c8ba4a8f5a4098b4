/**
 Inflating a region piece by piece: `zlib.decompressobj` as both ZIP checks use it, and when a
 complete stream is nevertheless left unfinished.
 */
module Inflate {
  import opened Struct
  import opened ZipFormat

  /** How much compressed input is read at a time, and the most output one call is asked for. */
  const CHUNK: nat := 1024 * 1024

  /**
   DEFLATE (RFC 1951) as a whole: which bytes are one complete stream, which no stream starts with,
   and what can be decoded from the bytes seen so far.
   */
  datatype Deflate = Deflate(ends: bytes -> bool, malformed: bytes -> bool, output: bytes -> bytes)

  /** Streams are not empty, none continues another, and decoding goes forward only. */
  ghost predicate Lawful(c: Deflate) {
    && !c.ends([])
    && (forall d: bytes, e: bytes :: c.ends(d) && d < e ==> !c.ends(e))
    && (forall d: bytes, e: bytes :: c.ends(e) && d <= e ==> !c.malformed(d))
    && (forall d: bytes, e: bytes :: d <= e ==> c.output(d) <= c.output(e))
  }

  type Positive = n: nat | n > 0 witness 1

  /**
   How much of the input the decoder would take next, from what it was fed, what it has given, the
   input at hand and the output limit. It only matters once the limit is reached.
   */
  type Pace = (bytes, nat, bytes, Positive) -> nat

  /** The output limit of the next call, from the output given so far. */
  type Limit = nat -> Positive

  /** How far the input goes before the stream ends: all of it, or up to the end. */
  function UpToEnd(c: Deflate, fed: bytes, pending: bytes, j: nat): (k: nat)
    requires j <= |pending|
    requires forall i :: 0 < i < j ==> !c.ends(fed + pending[..i])
    ensures j <= k <= |pending|
    ensures forall i :: 0 < i < k ==> !c.ends(fed + pending[..i])
    ensures k < |pending| ==> k > 0 && c.ends(fed + pending[..k])
    decreases |pending| - j
  {
    if j == |pending| || (j > 0 && c.ends(fed + pending[..j])) then j else UpToEnd(c, fed, pending, j + 1)
  }

  /**
   What one call takes: everything up to the end of the stream, unless the output limit is reached
   earlier; then whatever the pace says, as long as the limit is indeed reached.
   */
  function Taken(c: Deflate, pace: Pace, fed: bytes, given: nat, pending: bytes, limit: Positive): (k: nat)
    ensures k <= |pending|
    ensures forall i :: 0 < i < k ==> !c.ends(fed + pending[..i])
  {
    var whole := UpToEnd(c, fed, pending, 0);
    var wanted := Min(pace(fed, given, pending, limit), whole);
    if |c.output(fed + pending[..wanted])| >= given + limit then wanted else whole
  }

  class Inflater {
    const codec: Deflate
    const pace: Pace
    var fed: bytes
    var given: nat
    var eof: bool

    ghost predicate Valid()
      reads this
    {
      && given <= |codec.output(fed)|
      && (eof <==> codec.ends(fed) && given == |codec.output(fed)|)
    }

    constructor (codec: Deflate, pace: Pace)
      requires Lawful(codec)
      ensures Valid() && this.codec == codec && this.pace == pace && fed == [] && given == 0 && !eof
    {
      this.codec, this.pace := codec, pace;
      fed, given, eof := [], 0, false;
    }

    /**
     `decompress(pending, limit)`: takes input, never past the end of the stream, and gives as much
     of what it decodes to as the limit allows. The rest of the input comes back, as unused once
     the stream has ended. Input that was taken does not come back, even if output is still due.
     */
    method Decompress(pending: bytes, limit: Positive)
      returns (failed: bool, output: bytes, tail: bytes, unused: bytes)
      requires Valid() && !eof && Lawful(codec)
      modifies this
      ensures Valid()
      ensures var taken := Taken(codec, pace, old(fed), old(given), pending, limit);
        && fed == old(fed) + pending[..taken]
        && (if eof then unused == pending[taken..] && tail == [] else tail == pending[taken..] && unused == [])
      ensures failed <==> codec.malformed(fed)
      ensures given == Min(old(given) + limit, |codec.output(fed)|) >= old(given)
      ensures output == codec.output(fed)[old(given)..given]
    {
      var taken := Taken(codec, pace, fed, given, pending, limit);
      assert fed <= fed + pending[..taken];
      assert codec.output(fed) <= codec.output(fed + pending[..taken]);
      fed := fed + pending[..taken];
      failed := codec.malformed(fed);
      var decoded := codec.output(fed);
      var upTo := Min(given + limit, |decoded|);
      output := decoded[given..upTo];
      given := upTo;
      eof := codec.ends(fed) && given == |decoded|;
      if eof {
        tail, unused := [], pending[taken..];
      } else {
        tail, unused := pending[taken..], [];
      }
    }
  }

  /** Every call asks for the same amount of output. */
  const EACH_CALL: Limit := _ => CHUNK

  // ----- the bytes of a region -----

  /** A read that may come up short at the end of the file. */
  function ReadUpTo(file: bytes, position: nat, size: nat): (chunk: bytes)
    ensures |chunk| <= size && position + |chunk| <= Max(position, |file|)
    ensures chunk == [] <==> size == 0 || position >= |file|
    ensures chunk != [] ==> chunk == file[position..position + |chunk|]
  {
    if position >= |file| then [] else file[position..Min(position + size, |file|)]
  }

  function Max(a: nat, b: nat): nat {
    if a <= b then b else a
  }

  /** What can be read of `file[start..start + size]`. */
  function Held(file: bytes, start: nat, size: nat): (held: bytes)
    ensures |held| <= size
    ensures |held| == size > 0 ==> start + size <= |file| && held == file[start..start + size]
  {
    if start >= |file| then [] else file[start..Min(start + size, |file|)]
  }

  // ----- the calls on one region, chunk by chunk -----

  /** Where the calls stand: input taken, output given, and where the chunk at hand ends. */
  datatype Progress = Progress(at: nat, given: nat, end: nat)

  ghost predicate IsAt(c: Deflate, region: bytes, s: Progress) {
    s.at <= s.end <= |region| && s.given <= |c.output(region[..s.at])|
  }

  /** The state in which a region's first chunk is at hand. */
  function Start(region: bytes): Progress {
    Progress(0, 0, Min(CHUNK, |region|))
  }

  ghost function AfterCall(c: Deflate, pace: Pace, limit: Limit, region: bytes, s: Progress): Progress
    requires Lawful(c) && IsAt(c, region, s) && s.at < s.end
  {
    var taken := Taken(c, pace, region[..s.at], s.given, region[s.at..s.end], limit(s.given));
    var at := s.at + taken;
    Progress(at, Min(s.given + limit(s.given), |c.output(region[..at])|),
      if at == s.end then Min(s.end + CHUNK, |region|) else s.end)
  }

  lemma RegionPrefix(c: Deflate, region: bytes, a: nat, b: nat)
    requires Lawful(c) && a <= b <= |region|
    ensures c.output(region[..a]) <= c.output(region[..b]) <= c.output(region)
    ensures c.ends(region) ==> !c.malformed(region[..b]) && (b < |region| ==> !c.ends(region[..b]))
  {
    assert region[..a] <= region[..b] && region[..b] <= region;
  }

  /** Every call gets somewhere: it takes input or gives output. */
  lemma CallsAdvance(c: Deflate, pace: Pace, limit: Limit, region: bytes, s: Progress)
    requires Lawful(c) && IsAt(c, region, s) && s.at < s.end
    ensures var t := AfterCall(c, pace, limit, region, s);
      && IsAt(c, region, t) && s.at <= t.at <= s.end && s.given <= t.given
      && (t.at > s.at || t.given > s.given)
      && |c.output(region[..t.at])| <= |c.output(region)|
      && (t.at < |region| ==> t.at < t.end)
  {
    var pending := region[s.at..s.end];
    var taken := Taken(c, pace, region[..s.at], s.given, pending, limit(s.given));
    assert region[..s.at] + pending[..taken] == region[..s.at + taken];
    RegionPrefix(c, region, s.at, s.at + taken);
  }

  /**
   Some call takes the region's last byte while more output is due than it may give. Nothing is left
   to feed back then, so the rest of the output is never asked for.
   */
  ghost predicate TakesTooSoon(c: Deflate, pace: Pace, limit: Limit, region: bytes, s: Progress)
    requires Lawful(c) && IsAt(c, region, s)
    decreases |region| - s.at + (|c.output(region)| - s.given)
  {
    RegionPrefix(c, region, s.at, |region|);
    s.at < s.end &&
    var t := AfterCall(c, pace, limit, region, s);
    CallsAdvance(c, pace, limit, region, s);
    RegionPrefix(c, region, t.at, |region|);
    if t.at == |region| then |c.output(region)| > s.given + limit(s.given)
    else TakesTooSoon(c, pace, limit, region, t)
  }

  /** What is still to come of `TakesTooSoon`; behind the last byte, whether output was left. */
  ghost predicate LeavesOutput(c: Deflate, pace: Pace, limit: Limit, region: bytes, s: Progress)
    requires Lawful(c) && IsAt(c, region, s)
  {
    if s.at == |region| then s.given < |c.output(region)| else TakesTooSoon(c, pace, limit, region, s)
  }

  /**
   One call on a region that is a complete stream: it finds nothing wrong, gets somewhere, stays within
   the region's output and leaves the verdict as it was.
   */
  lemma GoodCall(c: Deflate, pace: Pace, limit: Limit, region: bytes, s: Progress)
    requires Lawful(c) && IsAt(c, region, s) && s.at < s.end && c.ends(region)
    ensures var t := AfterCall(c, pace, limit, region, s);
      && IsAt(c, region, t)
      && !c.malformed(region[..t.at]) && t.given <= |c.output(region)|
      && (c.ends(region[..t.at]) <==> t.at == |region|)
      && (LeavesOutput(c, pace, limit, region, s) <==> LeavesOutput(c, pace, limit, region, t))
  {
    CallsAdvance(c, pace, limit, region, s);
    var t := AfterCall(c, pace, limit, region, s);
    RegionPrefix(c, region, t.at, |region|);
    assert region[..|region|] == region;
    assert c.ends(region) && !c.malformed(region[..t.at]) by {
      RegionPrefix(c, region, t.at, t.at);
    }
  }

  /** The output so far, and how much of the region has been taken. */
  ghost predicate InStep(z: Inflater, region: bytes, s: Progress, data: bytes)
    reads z
  {
    && z.Valid() && IsAt(z.codec, region, s)
    && z.fed == region[..s.at]
    && z.given == s.given == |data| && data == z.codec.output(z.fed)[..z.given]
  }

  /** One call gives the next part of what the taken part of the region decodes to. */
  lemma StepData(c: Deflate, pace: Pace, limit: Limit, region: bytes, s: Progress, data: bytes)
    requires Lawful(c) && IsAt(c, region, s) && s.at < s.end
    requires data == c.output(region[..s.at])[..s.given]
    ensures var t := AfterCall(c, pace, limit, region, s);
      && IsAt(c, region, t) && s.at <= t.at <= s.end && (t.at > s.at || t.given > s.given)
      && t.at - s.at == Taken(c, pace, region[..s.at], s.given, region[s.at..s.end], limit(s.given))
      && t.given == Min(s.given + limit(s.given), |c.output(region[..t.at])|)
      && t.end == (if t.at == s.end then Min(s.end + CHUNK, |region|) else s.end)
      && region[..s.at] + region[s.at..s.end][..t.at - s.at] == region[..t.at]
      && data + c.output(region[..t.at])[s.given..t.given] == c.output(region[..t.at])[..t.given]
  {
    CallsAdvance(c, pace, limit, region, s);
    var t := AfterCall(c, pace, limit, region, s);
    RegionPrefix(c, region, s.at, t.at);
  }

  /** A region that is one stream within the declared size. */
  ghost predicate IsGood(c: Deflate, region: bytes, declared: nat) {
    c.ends(region) && |c.output(region)| <= declared
  }

  ghost predicate LeavesSome(z: Inflater, limit: Limit, region: bytes, s: Progress)
    reads z
    requires Lawful(z.codec) && IsAt(z.codec, region, s)
  {
    LeavesOutput(z.codec, z.pace, limit, region, s)
  }

  /** At the end of a region, the stream has ended exactly if no output was left behind. */
  lemma Finished(z: Inflater, limit: Limit, region: bytes, t: Progress)
    requires Lawful(z.codec) && z.Valid() && IsAt(z.codec, region, t) && z.fed == region[..t.at] && z.given == t.given
    ensures z.codec.ends(region) ==> (z.eof <==> t.at == |region| && !LeavesSome(z, limit, region, t))
  {
    RegionPrefix(z.codec, region, t.at, t.at);
    assert region[..|region|] == region;
  }

  // ----- when a complete stream is left unfinished -----

  /** Output that fits into one call is never left behind, at any pace. */
  lemma {:induction false} SmallOutputIsFinished(c: Deflate, pace: Pace, limit: Limit, region: bytes, s: Progress)
    requires Lawful(c) && IsAt(c, region, s)
    requires forall given: nat :: given <= |c.output(region)| ==> |c.output(region)| <= given + limit(given)
    ensures !TakesTooSoon(c, pace, limit, region, s)
    decreases |region| - s.at + (|c.output(region)| - s.given)
  {
    RegionPrefix(c, region, s.at, |region|);
    if s.at < s.end {
      var t := AfterCall(c, pace, limit, region, s);
      CallsAdvance(c, pace, limit, region, s);
      RegionPrefix(c, region, t.at, |region|);
      SmallOutputIsFinished(c, pace, limit, region, t);
    }
  }

  /** A decoder that takes all it is handed, up to the end of the stream. */
  ghost predicate Eager(pace: Pace) {
    forall fed: bytes, given: nat, pending: bytes, limit: Positive ::
      pace(fed, given, pending, limit) >= |pending|
  }

  /** An eager decoder leaves a stream of one chunk unfinished exactly when it decodes to more than one call gives. */
  lemma EagerOnOneChunk(c: Deflate, pace: Pace, limit: Limit, region: bytes)
    requires Lawful(c) && Eager(pace) && c.ends(region) && |region| <= CHUNK
    ensures IsAt(c, region, Start(region))
    ensures TakesTooSoon(c, pace, limit, region, Start(region)) <==> |c.output(region)| > limit(0)
  {
    var s := Start(region);
    assert region != [];
    var pending := region[s.at..s.end];
    assert pending == region && region[..0] + pending == region && region[..0] == [];
    forall i | 0 < i < |region| ensures !c.ends([] + pending[..i]) {
      RegionPrefix(c, region, i, i);
      assert [] + pending[..i] == region[..i];
    }
    var whole := UpToEnd(c, [], pending, 0);
    assert whole == |region|;
    assert Taken(c, pace, [], 0, pending, limit(0)) == |region|;
  }

  /** Two limits that differ only where each exceeds the output still due. */
  ghost predicate AlikeUpTo(total: nat, one: Limit, other: Limit) {
    forall given: nat :: given <= total ==>
      one(given) == other(given) || (given + one(given) > total && given + other(given) > total)
  }

  /** Readers whose limits are alike leave the same streams unfinished. */
  lemma {:induction false} SameVerdict(c: Deflate, pace: Pace, one: Limit, other: Limit, region: bytes, s: Progress)
    requires Lawful(c) && IsAt(c, region, s)
    requires AlikeUpTo(|c.output(region)|, one, other)
    ensures TakesTooSoon(c, pace, one, region, s) <==> TakesTooSoon(c, pace, other, region, s)
    decreases |region| - s.at + (|c.output(region)| - s.given)
  {
    RegionPrefix(c, region, s.at, |region|);
    if s.at < s.end {
      SameCall(c, pace, one, other, region, s);
      var t := AfterCall(c, pace, one, region, s);
      CallsAdvance(c, pace, one, region, s);
      RegionPrefix(c, region, t.at, |region|);
      SameVerdict(c, pace, one, other, region, t);
    }
  }

  /** What the limit cannot stop, the pace cannot hold up. */
  lemma LimitNotReached(c: Deflate, pace: Pace, fed: bytes, given: nat, pending: bytes, limit: Positive)
    requires forall k: nat :: k <= |pending| ==> |c.output(fed + pending[..k])| < given + limit
    ensures Taken(c, pace, fed, given, pending, limit) == UpToEnd(c, fed, pending, 0)
  {
  }

  lemma SameCall(c: Deflate, pace: Pace, one: Limit, other: Limit, region: bytes, s: Progress)
    requires Lawful(c) && IsAt(c, region, s) && s.at < s.end && s.given <= |c.output(region)|
    requires AlikeUpTo(|c.output(region)|, one, other)
    ensures AfterCall(c, pace, one, region, s) == AfterCall(c, pace, other, region, s)
  {
    hide Lawful, Taken, UpToEnd;
    var fed, pending := region[..s.at], region[s.at..s.end];
    if one(s.given) != other(s.given) {
      forall k: nat | k <= |pending| ensures |c.output(fed + pending[..k])| <= |c.output(region)| {
        assert fed + pending[..k] == region[..s.at + k];
        RegionPrefix(c, region, s.at + k, |region|);
      }
      LimitNotReached(c, pace, fed, s.given, pending, one(s.given));
      LimitNotReached(c, pace, fed, s.given, pending, other(s.given));
      var taken := Taken(c, pace, fed, s.given, pending, one(s.given));
      assert fed + pending[..taken] == region[..s.at + taken];
    }
  }
}
