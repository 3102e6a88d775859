/** LZ4_compress_generic: the greedy compressor, its labels as the states of one loop. */
module FastCompressor {
  import opened Bytes
  import opened BlockFormat
  import BlockRoundTrip
  import opened BlockWriter
  import opened HcEncoder
  import opened FastMatcher
  import opened FastEncoder
  import opened FastGreedy

  /** Where the loop goes on: at the search, at _next_match or at _last_literals. */
  datatype Next =
    | Search(ip: nat)
    | Match(ip: nat, ref: int, token: nat)
    | LastLiterals

  function Rank(n: Next): nat {
    match n
    case Search(_) => 2
    case Match(_, _, _) => 1
    case LastLiterals => 0
  }

  /** `hi` bounds the positions in the table: those of the search may lie past a match extended
      backwards, up to `filledIp`. */
  ghost predicate StateOk(j: Job, t: seq<nat>, dst: bytes, limit: Limit, next: Next, anchor: nat, op: nat,
                          filledIp: nat, hi: nat, ss: seq<Seqn>)
  {
    && TableOk(j, t, hi) && hi <= |j.src| && anchor <= |j.src|
    && match next
       case Search(ip) =>
         && Written(j.h, j.src, dst, anchor, op, ss, limit)
         && 0 < ip && anchor <= ip && hi == ip && ip + MFLIMIT <= |j.src| + 1 && MIN_LENGTH <= |j.src|
       case Match(ip, ref, token) =>
         && HeadWritten(j.h, j.src, dst, anchor, token, ss, limit, ip, op)
         && Candidate(j, ip, ref) && filledIp + MFLIMIT <= |j.src| && MIN_LENGTH <= |j.src|
         && (hi <= ip + 1 || (hi == filledIp + 1 && Known(j, ip, ref, filledIp)))
       case LastLiterals => Written(j.h, j.src, dst, anchor, op, ss, limit)
  }

  /** The match at `ip` was found at `filledIp` and extended backwards. */
  ghost predicate Known(j: Job, ip: nat, ref: int, filledIp: nat) {
    && ip <= filledIp && filledIp + MFLIMIT <= |j.src| && ref < ip
    && TrueMatch(j.h, j.src, ip, ip - ref, MINMATCH + (filledIp - ip))
  }

  // ----- What the block will take -----

  /** A run with `op` bytes written before it. */
  function Ahead(op: nat, rest: Run): Run {
    rest.(size := op + rest.size)
  }

  /** The bytes written and what is still to come make the run `goal`. */
  ghost predicate OnCourse(j: Job, acceleration: nat, t: seq<nat>, next: Next, anchor: nat, op: nat, goal: Run) {
    && Sized(j, t) && 1 <= acceleration
    && match next
       case Search(ip) =>
         && MIN_LENGTH <= |j.src| && anchor <= ip && ip + MFLIMIT <= |j.src| + 1
         && Ahead(op, SearchRun(j, t, acceleration, ip, anchor)) == goal
       case Match(ip, ref, token) =>
         && MIN_LENGTH <= |j.src| && anchor <= ip && -|j.h| <= ref < ip && ip + MFLIMIT <= |j.src|
         && Ahead(token, MatchRun(j, t, acceleration, ip, ref, anchor)) == goal
       case LastLiterals => anchor <= |j.src| && Ahead(op, Run(LastSize(|j.src| - anchor), t)) == goal
  }

  /** The same behind a match. */
  ghost predicate OnCourseAfter(j: Job, acceleration: nat, t: seq<nat>, anchor: nat, op: nat, goal: Run) {
    && Sized(j, t) && 1 <= acceleration && MIN_LENGTH <= |j.src|
    && MINMATCH <= anchor && anchor + LASTLITERALS <= |j.src|
    && Ahead(op, AfterRun(j, t, acceleration, anchor)) == goal
  }

  /** Only a buffer to be filled may end the block early, and only when the whole block would leave less
      than three bytes of it. */
  ghost predicate Tight(limit: Limit, total: nat, capacity: nat) {
    limit.FillOutput? && capacity < total + 3
  }

  lemma {:induction false} CourseStart(j: Job, acceleration: nat, t: seq<nat>)
    requires Sized(j, t) && 1 <= acceleration
    ensures var goal := GreedyRun(j, t, acceleration);
      if |j.src| < MIN_LENGTH then OnCourse(j, acceleration, t, LastLiterals, 0, 0, goal)
      else OnCourse(j, acceleration, Put(j, t, 0), Search(1), 0, 0, goal)
  {
    hide Put, SearchRun;
  }

  lemma {:induction false} CourseMissed(j: Job, acceleration: nat, t: seq<nat>, ip: nat, anchor: nat, op: nat,
      goal: Run, t': seq<nat>)
    requires OnCourse(j, acceleration, t, Search(ip), anchor, op, goal)
    requires FindFrom(j, t, ip, 1, acceleration * SKIP_TRIGGER) == Missed(t')
    ensures OnCourse(j, acceleration, t', LastLiterals, anchor, op, goal)
  {
    hide FindFrom, Back, MatchRun, LastSize;
  }

  lemma {:induction false} CourseFound(j: Job, acceleration: nat, t: seq<nat>, ip: nat, anchor: nat, token: nat,
      goal: Run, pos: nat, ref: int, t': seq<nat>, start: nat, op: nat)
    requires OnCourse(j, acceleration, t, Search(ip), anchor, token, goal)
    requires FindFrom(j, t, ip, 1, acceleration * SKIP_TRIGGER) == Found(pos, ref, t')
    requires start == Back(j, anchor, LowLimit(j, ref), pos, ref)
    ensures OnCourse(j, acceleration, t', Match(start, ref - (pos - start), token), anchor, op, goal)
  {
    hide FindFrom, Back, MatchRun, LastSize, LowLimit;
  }

  lemma CourseEnd(j: Job, acceleration: nat, t: seq<nat>, anchor: nat, op: nat, goal: Run)
    requires OnCourse(j, acceleration, t, LastLiterals, anchor, op, goal)
    ensures anchor <= |j.src| && op + LastSize(|j.src| - anchor) == goal.size && t == goal.table
  {
  }

  /** No room for the next sequence: no room for the block. */
  lemma {:induction false} CourseNoRoom(j: Job, acceleration: nat, t: seq<nat>, ip: nat, ref: int, token: nat,
      anchor: nat, op: nat, goal: Run, last0: nat, capacity: nat)
    requires OnCourse(j, acceleration, t, Match(ip, ref, token), anchor, op, goal)
    requires LASTLITERALS <= last0 < RUN_MASK && NoRoom(token, ip - anchor, last0, capacity)
    ensures capacity < goal.size + last0 - LASTLITERALS
  {
    hide MatchRun, MatchCode, SeqnSize;
    assert token + SeqnSize(ip - anchor, MINMATCH + MatchCode(j, ip, ref)) + LastSize(last0) > capacity;
  }

  lemma {:induction false} CourseMatch(j: Job, acceleration: nat, t: seq<nat>, ip: nat, ref: int, token: nat,
      anchor: nat, op: nat, goal: Run)
    requires OnCourse(j, acceleration, t, Match(ip, ref, token), anchor, op, goal)
    requires op == token + 1 + ExtensionSize(ip - anchor) + (ip - anchor)
    ensures var n := MatchCode(j, ip, ref);
      && op + 2 + ExtensionSize(n) + LastSize(LASTLITERALS) <= goal.size
      && OnCourseAfter(j, acceleration, t, ip + MINMATCH + n, op + 2 + ExtensionSize(n), goal)
  {
    hide MatchCode, AfterRun, ExtensionSize;
  }

  lemma {:induction false} CourseAfter(j: Job, acceleration: nat, t: seq<nat>, anchor: nat, op: nat, goal: Run)
    requires OnCourseAfter(j, acceleration, t, anchor, op, goal)
    ensures if anchor >= |j.src| - MFLIMIT + 1 then OnCourse(j, acceleration, t, LastLiterals, anchor, op, goal)
      else
        var t1 := Put(j, t, anchor - 2);
        var t2 := Put(j, t1, anchor);
        if Hit(j, t1, anchor) then
          OnCourse(j, acceleration, t2, Match(anchor, RefAt(j, t1, anchor), op), anchor, op + 1, goal)
        else OnCourse(j, acceleration, t2, Search(anchor + 1), anchor, op, goal)
  {
    hide Put, RefAt, MatchRun, SearchRun, LastSize;
    if anchor < |j.src| - MFLIMIT + 1 {
      var t1 := Put(j, t, anchor - 2);
      if Hit(j, t1, anchor) { HitRange(j, t1, anchor); }
    }
  }

  // ----- The steps -----

  /** From the search to a match whose literals are written. */
  method SearchStep(j: Job, table: array<nat>, dst: array<byte>, limit: Limit, acceleration: nat, ip0: nat,
      anchor: nat, op0: nat,
                    ghost filled0: nat, ghost ss: seq<Seqn>, ghost goal: Run)
    returns (fit: Fit, next: Next, op: nat, filledIp: nat, ghost hi: nat)
    requires JobOk(j) && 1 <= acceleration
    requires StateOk(j, table[..], dst[..], limit, Search(ip0), anchor, op0, filled0, ip0, ss)
    requires
      Tight(limit, goal.size, dst.Length) || OnCourse(j, acceleration, table[..], Search(ip0), anchor, op0, goal)
    modifies table, dst
    ensures fit.Full? ==> dst.Length < goal.size
    ensures !fit.Full? ==>
      Tight(limit, goal.size, dst.Length) || OnCourse(j, acceleration, table[..], next, anchor, op, goal)
    ensures fit.Full? ==> limit.LimitedOutput? && !WorstCase(|j.src|, dst.Length) && TableOk(j, table[..], |j.src|)
    ensures !fit.Full? ==> StateOk(j, table[..], dst[..], limit, next, anchor, op, filledIp, hi, ss) && Rank(next) < 2
  {
    hide TableOk, JobOk, Candidate, Written, HeadWritten, Known, OnCourse, NoRoom, Back, FindFrom;
    TableSize(j, table[..], ip0);
    ghost var t0 := table[..];
    var found, ip, ref := FindMatch(j, table, ip0, acceleration);
    op, filledIp, hi := op0, ip, |j.src|;
    if !found {
      if !Tight(limit, goal.size, dst.Length) {
        CourseMissed(j, acceleration, t0, ip0, anchor, op0, goal, table[..]);
      }
      return Done, LastLiterals, op, filledIp, hi;
    }
    CandidateFits(j, ip, ref);
    var ip', ref' := CatchUp(j, anchor, ip, ref);
    CandidateFits(j, ip', ref');
    fit, op := PutLiterals(j.h, j.src, dst, anchor, ip', op0, limit, ss);
    if !Tight(limit, goal.size, dst.Length) {
      CourseFound(j, acceleration, t0, ip0, anchor, op0, goal, ip, ref, table[..], ip', op);
      assert ref - (ip - ip') == ref';
    }
    if !Tight(limit, goal.size, dst.Length) && !fit.Done? {
      CourseNoRoom(j, acceleration, table[..], ip', ref', op0, anchor, op, goal,
        if fit.Full? then LASTLITERALS else MFLIMIT - MINMATCH, dst.Length);
    }
    if fit.Done? {
      hi := ip + 1;
      NowKnown(j, ip', ref', ip);
      next := Match(ip', ref', op0);
    } else {
      TableLater(j, table[..], ip + 1, |j.src|);
      next := LastLiterals;
    }
  }

  lemma NowKnown(j: Job, ip: nat, ref: int, filledIp: nat)
    requires ip <= filledIp && filledIp + MFLIMIT <= |j.src| && ref < ip
    requires TrueMatch(j.h, j.src, ip, ip - ref, MINMATCH + (filledIp - ip))
    ensures Known(j, ip, ref, filledIp)
  {
  }

  lemma CandidateFits(j: Job, ip: nat, ref: int)
    requires Candidate(j, ip, ref)
    ensures ip + MFLIMIT <= |j.src| && -|j.h| <= ref < ip && ip - ref <= DISTANCE_MAX
  {
  }

  /** _next_match: offset and match length. */
  method MatchStep(j: Job, table: array<nat>, dst: array<byte>, limit: Limit, ip: nat, ref: int, token: nat,
      anchor: nat, op0: nat,
                   filledIp: nat, ghost hi: nat, ghost ss: seq<Seqn>, ghost acceleration: nat, ghost goal: Run)
    returns (fit: Fit, anchor': nat, op: nat, ghost ss': seq<Seqn>)
    requires JobOk(j)
    requires StateOk(j, table[..], dst[..], limit, Match(ip, ref, token), anchor, op0, filledIp, hi, ss)
    requires
      || Tight(limit, goal.size, dst.Length)
      || OnCourse(j, acceleration, table[..], Match(ip, ref, token), anchor, op0, goal)
    modifies table, dst
    ensures fit.Full? ==> dst.Length < goal.size
    ensures fit.Rewind? ==> Tight(limit, goal.size, dst.Length)
    ensures fit.Done? ==>
      Tight(limit, goal.size, dst.Length) || OnCourseAfter(j, acceleration, table[..], anchor', op, goal)
    ensures fit.Full? ==> limit.LimitedOutput? && !WorstCase(|j.src|, dst.Length) && TableOk(j, table[..], |j.src|)
    ensures fit.Rewind? ==> Written(j.h, j.src, dst[..], anchor, token, ss, limit) && TableOk(j, table[..], |j.src|)
    ensures fit.Done? ==>
      && anchor + MINMATCH <= anchor' && anchor' + LASTLITERALS <= |j.src| && op + 3 <= dst.Length
      && Written(j.h, j.src, dst[..], anchor', op, ss', limit) && TableOk(j, table[..], anchor')
  {
    hide TableOk, JobOk, Candidate, Written, HeadWritten, Known, TrueMatch, ExtensionSize, Longest, OnCourse,
      OnCourseAfter, MatchCode;
    ss', anchor', op := ss, anchor, op0;
    HeadFacts(j.h, j.src, dst[..], anchor, token, ss, limit, ip, op0);
    CandidateFits(j, ip, ref);
    if !Tight(limit, goal.size, dst.Length) {
      CourseMatch(j, acceleration, table[..], ip, ref, token, anchor, op0, goal);
    }
    if limit.FillOutput? && op0 + 2 + 1 + MFLIMIT - MINMATCH > dst.Length {
      assert LastSize(LASTLITERALS) == 6 by { ShortCode(LASTLITERALS); }
      TableLater(j, table[..], hi, |j.src|);
      return Rewind, anchor, token, ss;
    }
    var matchCode := CountMatch(j, ip, ref);
    var newMatchCode;
    fit, newMatchCode := FitMatch(|j.src|, op0, matchCode, dst.Length, limit, anchor, ip);
    if fit.Full? {
      TableLater(j, table[..], hi, |j.src|);
      return;
    }
    if newMatchCode < matchCode { ShorterRun(newMatchCode + 1, matchCode); }
    var ml := MINMATCH + newMatchCode;
    SubMatch(j.h, j.src, ip, ip - ref, MINMATCH + matchCode, ip, ml);
    anchor' := ip + ml;
    if newMatchCode < matchCode && anchor' <= filledIp {
      GiveBack(j, table[..], ip, ref, filledIp, hi, anchor');
      ClearFrom(j, table, anchor', filledIp);
    } else {
      PastFilled(j, table[..], ip, ref, filledIp, hi, matchCode, newMatchCode);
    }
    op := PutMatch(j.h, j.src, dst, anchor, ip, token, op0, ip - ref, ml, limit, ss);
    ss' := ss + [SeqnAt(j.src, anchor, ip, ip - ref, ml)];
  }

  lemma HeadFacts(h: bytes, src: bytes, dst: bytes, anchor: nat, token: nat, ss: seq<Seqn>, limit: Limit, ip: nat,
      op: nat)
    requires HeadWritten(h, src, dst, anchor, token, ss, limit, ip, op)
    ensures Written(h, src, dst, anchor, token, ss, limit) && Budget(|src|, limit, |dst|)
    ensures anchor <= ip <= |src| && op <= |dst| && op <= ip + ip / 255 + 2
    ensures op == token + 1 + ExtensionSize(ip - anchor) + (ip - anchor)
    ensures limit.FillOutput? ==> 1 <= |dst|
  {
    hide Emitted, EncodeLiterals;
    WrittenBound(h, src, dst, anchor, token, ss, limit);
    SeqnRoom(anchor, ip, 4);
  }

  /** A shortened match gives positions back only after a search. */
  lemma GiveBack(j: Job, t: seq<nat>, ip: nat, ref: int, filledIp: nat, hi: nat, from: nat)
    requires TableOk(j, t, hi) && (hi <= ip + 1 || (hi == filledIp + 1 && Known(j, ip, ref, filledIp)))
    requires ip + MINMATCH <= from <= filledIp
    ensures TableOk(j, t, filledIp + 1)
  {
    hide TableOk, TrueMatch;
    if hi < filledIp + 1 { TableLater(j, t, hi, filledIp + 1); }
  }

  /** The end of the match lies past everything in the table. */
  lemma PastFilled(j: Job, t: seq<nat>, ip: nat, ref: int, filledIp: nat, hi: nat, matchCode: nat, newMatchCode: nat)
    requires TableOk(j, t, hi) && (hi <= ip + 1 || (hi == filledIp + 1 && Known(j, ip, ref, filledIp)))
    requires -|j.h| <= ref < ip && Longest(j, ip, ref, MINMATCH + matchCode) && newMatchCode <= matchCode
    requires newMatchCode == matchCode || filledIp < ip + MINMATCH + newMatchCode
    ensures TableOk(j, t, ip + MINMATCH + newMatchCode)
  {
    hide TableOk, Longest;
    if hi > ip + 1 && newMatchCode == matchCode {
      LongestReaches(j, ip, ref, MINMATCH + (filledIp - ip), MINMATCH + matchCode);
    }
    TableLater(j, t, hi, ip + MINMATCH + newMatchCode);
  }

  /** "Fill table", "Test next position" */
  method NextStep(j: Job, table: array<nat>, dst: array<byte>, limit: Limit, anchor: nat, op0: nat,
      ghost filledIp: nat, ghost ss: seq<Seqn>, ghost acceleration: nat, ghost goal: Run)
    returns (next: Next, op: nat, ghost hi: nat)
    requires JobOk(j) && Written(j.h, j.src, dst[..], anchor, op0, ss, limit) && TableOk(j, table[..], anchor)
    requires MINMATCH <= anchor <= |j.src| && op0 + 3 <= dst.Length && MIN_LENGTH <= |j.src|
    requires filledIp + MFLIMIT <= |j.src|
    requires Tight(limit, goal.size, dst.Length) || OnCourseAfter(j, acceleration, table[..], anchor, op0, goal)
    modifies table, dst
    ensures Tight(limit, goal.size, dst.Length) || OnCourse(j, acceleration, table[..], next, anchor, op, goal)
    ensures StateOk(j, table[..], dst[..], limit, next, anchor, op, filledIp, hi, ss)
  {
    hide TableOk, JobOk, Candidate, Written, EncodeLiterals, Known, OnCourse, OnCourseAfter, Put, Hit, RefAt;
    op := op0;
    TableSize(j, table[..], anchor);
    if !Tight(limit, goal.size, dst.Length) { CourseAfter(j, acceleration, table[..], anchor, op0, goal); }
    if anchor >= |j.src| - MFLIMIT + 1 {
      TableLater(j, table[..], anchor, |j.src|);
      return LastLiterals, op, |j.src|;
    }
    PutPosition(j, table, anchor, anchor - 2);
    var found, ref := TryPosition(j, table, anchor);
    hi := anchor + 1;
    if found {
      var token := op;
      ghost var was := dst[..];
      dst[token] := 0;
      op := token + 1;
      WrittenKept(j.h, j.src, was, dst[..], anchor, token, ss, limit);
      EmptyHead(was, dst[..], token, j.src, anchor);
      next := Match(anchor, ref, token);
    } else {
      next := Search(anchor + 1);
    }
  }

  lemma EmptyHead(was: bytes, now: bytes, token: nat, src: bytes, anchor: nat)
    requires token < |was| && now == was[token := 0] && anchor <= |src|
    ensures now[..token] == was[..token] && now[..token + 1] == now[..token] + EncodeLiterals(src[anchor..anchor], 0)
    ensures ExtensionSize(0) == 0
  {
    hide EncodeLiterals;
    BlockRoundTrip.EmptyRun(src[anchor..anchor]);
    assert now[..token + 1] == now[..token] + [0];
  }

  /** What the size of the whole block means for a call: a limit below it makes the call fail, nothing else
      does; a buffer is filled up to its last byte but one, and takes the whole source at the latest when the
      block would leave three bytes of it. */
  ghost predicate Exact(total: nat, limit: Limit, n: nat, capacity: nat, result: nat, consumed: nat) {
    match limit
    case NotLimited => result == total && consumed == n
    case LimitedOutput => if total <= capacity then result == total && consumed == n else result == 0
    case FillOutput =>
      && (total + 3 <= capacity ==> result == total && consumed == n)
      && (consumed < n ==> capacity <= result + 1)
  }

  /** LZ4_compress_generic_validated. A result of 0 means that the limit was reached, which cannot
      happen with the worst-case capacity; otherwise the output is a complete block of the source, or of
      its first `consumed` bytes when the output is to be filled. */
  method CompressValidated(j: Job, table: array<nat>, dst: array<byte>, limit: Limit, acceleration: nat)
    returns (result: nat, consumed: nat)
    requires JobOk(j) && TableOk(j, table[..], 0) && 1 <= acceleration && Budget(|j.src|, limit, dst.Length)
    modifies table, dst
    ensures TableOk(j, table[..], |j.src|)
    ensures result > 0 ==>
      && result <= dst.Length && consumed <= |j.src| && IsBlockOf(j.h, j.src[..consumed], dst[..result])
      && result <= |j.src| + |j.src| / 255 + 2
    ensures !limit.FillOutput? && result > 0 ==> consumed == |j.src|
    ensures result == 0 ==>
      (limit.LimitedOutput? && !WorstCase(|j.src|, dst.Length)) || (limit.FillOutput? && dst.Length == 0)
    ensures Sized(j, old(table[..]))
      && Exact(old(GreedyRun(j, table[..], acceleration)).size, limit, |j.src|, dst.Length, result, consumed)
    ensures result > 0 && !Tight(limit, old(GreedyRun(j, table[..], acceleration)).size, dst.Length) ==>
      table[..] == old(GreedyRun(j, table[..], acceleration)).table
  {
    hide TableOk, JobOk, Candidate, Written, HeadWritten, Known, IsBlockOf, OnCourse, GreedyRun, OnCourseAfter;
    TableSize(j, table[..], 0);
    ghost var goal := GreedyRun(j, table[..], acceleration);
    GreedyBound(j, table[..], acceleration);
    assert 0 < goal.size <= |j.src| + |j.src| / 255 + 2;
    if limit.FillOutput? && dst.Length < 1 {
      TableLater(j, table[..], 0, |j.src|);
      return 0, 0;
    }
    WrittenStart(j.h, j.src, dst[..], limit);
    CourseStart(j, acceleration, table[..]);
    var anchor: nat, op: nat, filledIp: nat := 0, 0, 0;
    ghost var ss: seq<Seqn>, hi: nat := [], |j.src|;
    var next := LastLiterals;
    if |j.src| >= MIN_LENGTH {
      PutPosition(j, table, 0, 0);
      next, hi := Search(1), 1;
    } else {
      TableLater(j, table[..], 0, |j.src|);
    }
    while !next.LastLiterals?
      invariant StateOk(j, table[..], dst[..], limit, next, anchor, op, filledIp, hi, ss)
      invariant Tight(limit, goal.size, dst.Length) || OnCourse(j, acceleration, table[..], next, anchor, op, goal)
      decreases |j.src| - anchor, Rank(next)
    {
      var fit;
      match next {
        case Search(ip) =>
          fit, next, op, filledIp, hi := SearchStep(j, table, dst, limit, acceleration, ip, anchor, op, filledIp, ss,
            goal);
          if fit.Full? { return 0, 0; }
        case Match(ip, ref, token) =>
          var anchor', op';
          ghost var ss';
          fit, anchor', op', ss' := MatchStep(j, table, dst, limit, ip, ref, token, anchor, op, filledIp, hi, ss,
            acceleration, goal);
          if fit.Full? { return 0, 0; }
          if fit.Rewind? {
            next, op, hi := LastLiterals, token, |j.src|;
          } else {
            anchor, op, ss := anchor', op', ss';
            next, op, hi := NextStep(j, table, dst, limit, anchor, op, filledIp, ss, acceleration, goal);
          }
      }
    }
    TableLater(j, table[..], hi, |j.src|);
    if !Tight(limit, goal.size, dst.Length) { CourseEnd(j, acceleration, table[..], anchor, op, goal); }
    result, consumed := PutLastLiterals(j.h, j.src, dst, anchor, op, limit, ss);
  }
}
