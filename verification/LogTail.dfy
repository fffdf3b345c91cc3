/** Tailing one job's log by cursor, through reads that fail, come back empty,
    or are held by the server. */
module LogTail {

  const POLL_INTERVAL := 1500
  const MAX_CONSECUTIVE_ERRORS := 5

  datatype Reply = ReadFailed | Got(content: string, next: nat, complete: bool)

  /** What the n-th read answers from a cursor, how long it takes and whether the
      user has interrupted by then; likewise for the wait after it. `holds`: the
      server keeps a read open until there is something to say. */
  datatype Server = Server(
    holds: bool, reply: (nat, nat) -> Reply, took: nat -> nat, interrupted: nat -> bool,
    late: nat -> nat, interruptedWaiting: nat -> bool)

  /** `failures`: how many reads in a row have failed, this one included. */
  datatype Read = Read(asked: int, answered: int, from: nat, reply: Reply, failures: nat)

  datatype TailEnd = Completed | Interrupted | GaveUp | StillTailing

  // ---- what a sequence of reads amounts to ----

  predicate Says(r: Read)
  {
    r.reply.Got? && r.reply.content != ""
  }

  /** The cursor after a read: an empty one leaves it. */
  function CursorThen(r: Read): nat
  {
    if Says(r) then r.reply.next else r.from
  }

  function Printed(r: Read): string
  {
    if r.reply.Got? then r.reply.content else ""
  }

  function PrintedBy(seen: seq<Read>): string
  {
    if seen == [] then "" else PrintedBy(seen[..|seen| - 1]) + Printed(seen[|seen| - 1])
  }

  /** The server held this read, so the next may follow at once. */
  predicate Held(holds: bool, r: Read)
  {
    holds && r.reply.Got? && (r.reply.content != "" || r.answered - r.asked >= POLL_INTERVAL)
  }

  /** A read the tail goes on from. */
  predicate GoesOn(r: Read)
  {
    if r.reply.Got? then !r.reply.complete else r.failures < MAX_CONSECUTIVE_ERRORS
  }

  predicate FirstRead(r: Read)
  {
    r.from == 0 && r.asked <= r.answered && r.failures == if r.reply.Got? then 0 else 1
  }

  function AskedAgain(holds: bool, r: Read): int
  {
    r.answered + if Held(holds, r) then 0 else POLL_INTERVAL
  }

  predicate Follows(holds: bool, r: Read, next: Read)
  {
    && next.from == CursorThen(r) && next.asked <= next.answered
    && next.asked >= AskedAgain(holds, r)
    && next.failures == if next.reply.Got? then 0 else r.failures + 1
  }

  /** The reads of one tail: each from the cursor the one before it left. */
  ghost predicate Tailing(holds: bool, seen: seq<Read>)
  {
    && (seen != [] ==> FirstRead(seen[0]))
    && forall i :: 0 <= i < |seen| - 1 ==> GoesOn(seen[i]) && Follows(holds, seen[i], seen[i + 1])
  }

  /** What the tail holds when it is about to read from a cursor at `now`. */
  ghost predicate BeforeRead(holds: bool, seen: seq<Read>, now: int, fromSeq: nat, errCount: nat, printed: string)
  {
    && Tailing(holds, seen) && printed == PrintedBy(seen)
    && if seen == [] then fromSeq == 0 && errCount == 0
       else
         var last := seen[|seen| - 1];
         GoesOn(last) && fromSeq == CursorThen(last) && errCount == last.failures && now >= AskedAgain(holds, last)
  }

  /** When the next read is asked: at once after one the server held, else
      after the poll interval. */
  function NextRead(s: Server, seen: seq<Read>, start: int): int
  {
    if seen == [] then start
    else
      var i := |seen| - 1;
      AskedAgain(s.holds, seen[i]) + if Held(s.holds, seen[i]) then 0 else s.late(i)
  }

  /** Each read was sent in its turn, and the server answered it so. */
  ghost predicate Answered(s: Server, seen: seq<Read>, start: int)
  {
    forall i :: 0 <= i < |seen| ==>
      && seen[i].reply == s.reply(i, seen[i].from)
      && seen[i].asked == NextRead(s, seen[..i], start) && seen[i].answered == seen[i].asked + s.took(i)
  }

  lemma OneMoreAnswer(s: Server, seen: seq<Read>, start: int, r: Read)
    requires Answered(s, seen, start) && r.reply == s.reply(|seen|, r.from)
    requires r.asked == NextRead(s, seen, start) && r.answered == r.asked + s.took(|seen|)
    ensures Answered(s, seen + [r], start)
  {
    var all := seen + [r];
    forall i | 0 <= i < |all|
      ensures all[i].asked == NextRead(s, all[..i], start)
    {
      assert all[..i] == if i < |seen| then seen[..i] else seen;
    }
  }

  lemma OneMoreRead(holds: bool, seen: seq<Read>, r: Read, errCount: nat, printed: string)
    requires BeforeRead(holds, seen, r.asked, r.from, errCount, printed) && r.asked <= r.answered
    requires r.failures == if r.reply.Got? then 0 else errCount + 1
    ensures Tailing(holds, seen + [r])
    ensures PrintedBy(seen + [r]) == printed + Printed(r)
  {
    assert (seen + [r])[..|seen|] == seen;
  }

  /** The tail waits before it reads again: after a failure that is not the
      fifth, and after an answer that the server did not hold back for it. */
  predicate Pauses(holds: bool, r: Read)
  {
    match r.reply
    case ReadFailed => r.failures < 5
    case Got(content, _, complete) => !complete && !(holds && (content != "" || r.answered - r.asked >= 1500))
  }

  /** The user did not interrupt the n-th read or the wait after it. */
  predicate Uninterrupted(s: Server, n: nat, r: Read)
  {
    && (r.reply.ReadFailed? ==> !s.interrupted(n))
    && (Pauses(s.holds, r) ==> !s.interruptedWaiting(n))
  }

  /** How a tail stands after its n-th read. */
  ghost predicate EndsAs(s: Server, n: nat, r: Read, end: TailEnd)
  {
    && (end.Completed? <==> r.reply.Got? && r.reply.complete)
    && (end.Interrupted? <==> !Uninterrupted(s, n, r))
    && (end.GaveUp? <==> r.failures >= 5 && !s.interrupted(n))
    && (end.StillTailing? ==> GoesOn(r))
  }

  /** What one read and the wait after it change; `end` when the tail is over. */
  method ReadOnce(s: Server, n: nat, asked: int, fromSeq: nat, errCount: nat)
    returns (r: Read, end: TailEnd, now: int)
    requires errCount < MAX_CONSECUTIVE_ERRORS
    ensures r.asked == asked && r.answered == asked + s.took(n) && r.from == fromSeq && r.reply == s.reply(n, fromSeq)
    ensures r.failures == if r.reply.Got? then 0 else errCount + 1
    ensures EndsAs(s, n, r, end)
    ensures end.StillTailing? ==> now == AskedAgain(s.holds, r) + if Held(s.holds, r) then 0 else s.late(n)
  {
    var reply := s.reply(n, fromSeq);
    now := asked + s.took(n);
    r := Read(asked, now, fromSeq, reply, if reply.Got? then 0 else errCount + 1);
    if reply.ReadFailed? {
      if s.interrupted(n) {
        return r, Interrupted, now;
      }
      if errCount + 1 >= MAX_CONSECUTIVE_ERRORS {
        return r, GaveUp, now;
      }
    } else {
      if reply.complete {
        return r, Completed, now;
      }
      if s.holds && (reply.content != "" || now - asked >= POLL_INTERVAL) {
        return r, StillTailing, now;
      }
    }
    if s.interruptedWaiting(n) {
      return r, Interrupted, now;
    }
    return r, StillTailing, now + POLL_INTERVAL + s.late(n);
  }

  /** A tail's reads so far, none but perhaps the last interrupted. */
  ghost predicate Tail(s: Server, seen: seq<Read>, start: int, printed: string)
  {
    Tailing(s.holds, seen) && Answered(s, seen, start) && printed == PrintedBy(seen) && Undisturbed(s, seen)
  }

  ghost predicate Undisturbed(s: Server, seen: seq<Read>)
  {
    forall i :: 0 <= i < |seen| - 1 ==> Uninterrupted(s, i, seen[i])
  }

  lemma UndisturbedNext(s: Server, seen: seq<Read>, r: Read)
    requires Undisturbed(s, seen) && (seen != [] ==> Uninterrupted(s, |seen| - 1, seen[|seen| - 1]))
    ensures Undisturbed(s, seen + [r])
  {
  }

  /** What a tail holds that is about to read again. */
  ghost predicate Tails(s: Server, seen: seq<Read>, start: int, now: int, fromSeq: nat, errCount: nat, printed: string)
  {
    && Tail(s, seen, start, printed) && errCount < MAX_CONSECUTIVE_ERRORS
    && BeforeRead(s.holds, seen, now, fromSeq, errCount, printed) && now == NextRead(s, seen, start)
    && (seen != [] ==> EndsAs(s, |seen| - 1, seen[|seen| - 1], StillTailing))
  }

  lemma StartsTailing(s: Server, start: int)
    ensures Tails(s, [], start, start, 0, 0, "")
  {
  }

  lemma TailReads(s: Server, seen: seq<Read>, start: int, now: int, fromSeq: nat, errCount: nat, printed: string, r: Read)
    requires Tails(s, seen, start, now, fromSeq, errCount, printed)
    requires r.asked == now && r.answered == now + s.took(|seen|) && r.from == fromSeq && r.reply == s.reply(|seen|, fromSeq)
    requires r.failures == if r.reply.Got? then 0 else errCount + 1
    ensures Tail(s, seen + [r], start, printed + Printed(r))
  {
    OneMoreRead(s.holds, seen, r, errCount, printed);
    OneMoreAnswer(s, seen, start, r);
    UndisturbedNext(s, seen, r);
  }

  lemma TailGoesOn(s: Server, seen: seq<Read>, start: int, printed: string, r: Read, now: int)
    requires Tail(s, seen + [r], start, printed) && EndsAs(s, |seen|, r, StillTailing)
    requires now == AskedAgain(s.holds, r) + if Held(s.holds, r) then 0 else s.late(|seen|)
    requires r.reply.Got? ==> r.failures == 0
    ensures Tails(s, seen + [r], start, now, CursorThen(r), r.failures, printed)
  {
    var all := seen + [r];
    assert all[|all| - 1] == r && |all| - 1 == |seen|;
    assert GoesOn(r);
    assert now == NextRead(s, all, start);
    assert BeforeRead(s.holds, all, now, CursorThen(r), r.failures, printed);
  }

  /** At most `limit` reads of a tail that may go on for ever. */
  method FollowRemoteLog(s: Server, start: int, limit: nat) returns (end: TailEnd, printed: string, seen: seq<Read>)
    ensures |seen| <= limit && Tail(s, seen, start, printed)
    ensures end.StillTailing? ==> |seen| == limit
    ensures seen != [] ==> EndsAs(s, |seen| - 1, seen[|seen| - 1], end)
  {
    var now, fromSeq: nat, errCount: nat := start, 0, 0;
    printed, seen := "", [];
    StartsTailing(s, start);
    while |seen| < limit
      invariant |seen| <= limit && Tails(s, seen, start, now, fromSeq, errCount, printed)
    {
      var r, ended, next := ReadOnce(s, |seen|, now, fromSeq, errCount);
      TailReads(s, seen, start, now, fromSeq, errCount, printed, r);
      printed := printed + Printed(r);
      errCount := r.failures;
      if Says(r) {
        fromSeq := r.reply.next;
      }
      if !ended.StillTailing? {
        return ended, printed, seen + [r];
      }
      TailGoesOn(s, seen, start, printed, r, next);
      seen := seen + [r];
      now := next;
    }
    end := StillTailing;
  }

  // ---- what was printed ----

  /** The log's text between two cursors. */
  function Text(chunks: nat -> string, from: nat, to: nat): string
    decreases to
  {
    if from >= to then "" else Text(chunks, from, to - 1) + chunks(to - 1)
  }

  lemma {:induction false} TextJoins(chunks: nat -> string, a: nat, b: nat, c: nat)
    requires a <= b <= c
    ensures Text(chunks, a, c) == Text(chunks, a, b) + Text(chunks, b, c)
    decreases c
  {
    if b < c {
      TextJoins(chunks, a, b, c - 1);
    }
  }

  /** A read answers the text from its cursor to the one it names. */
  ghost predicate Honest(chunks: nat -> string, r: Read)
  {
    r.reply.Got? ==> r.from <= r.reply.next && r.reply.content == Text(chunks, r.from, r.reply.next)
  }

  /** After every read, what was printed is the log up to the cursor: nothing
      lost, repeated or reordered, whatever failed in between. */
  lemma {:induction false} PrintedIsLogUpToCursor(holds: bool, seen: seq<Read>, chunks: nat -> string, k: nat)
    requires Tailing(holds, seen) && k < |seen| && forall r :: r in seen ==> Honest(chunks, r)
    ensures PrintedBy(seen[..k + 1]) == Text(chunks, 0, CursorThen(seen[k]))
  {
    var r := seen[k];
    assert seen[..k + 1][..k] == seen[..k] && r in seen;
    if k > 0 {
      PrintedIsLogUpToCursor(holds, seen, chunks, k - 1);
      assert Follows(holds, seen[k - 1], r);
    }
    assert PrintedBy(seen[..k]) == Text(chunks, 0, r.from);
    if Says(r) {
      TextJoins(chunks, 0, r.from, r.reply.next);
    }
  }

  /** If the read that says complete names a cursor past which the log holds
      nothing, a completed tail has printed the whole log. */
  lemma CompletedPrintedAll(holds: bool, seen: seq<Read>, chunks: nat -> string, all: nat)
    requires Tailing(holds, seen) && seen != [] && forall r :: r in seen ==> Honest(chunks, r)
    requires var last := seen[|seen| - 1].reply;
      last.Got? && last.complete && last.next <= all && Text(chunks, last.next, all) == ""
    ensures PrintedBy(seen) == Text(chunks, 0, all)
  {
    var n := |seen| - 1;
    var r := seen[n];
    assert seen[..n + 1] == seen && r in seen;
    PrintedIsLogUpToCursor(holds, seen, chunks, n);
    TextJoins(chunks, 0, CursorThen(r), r.reply.next);
    TextJoins(chunks, 0, r.reply.next, all);
  }

  // ---- how it asks ----

  /** The last `failures` reads are the failed ones at the end, and the tail
      goes on only while there are fewer than five: giving up takes exactly five
      failed reads in a row. */
  lemma {:induction false} FailuresInARow(holds: bool, seen: seq<Read>, k: nat)
    requires Tailing(holds, seen) && k < |seen|
    ensures seen[k].failures <= 5 && seen[k].failures <= k + 1
    ensures forall i :: k - seen[k].failures < i <= k ==> seen[i].reply.ReadFailed?
    ensures seen[k].failures <= k ==> seen[k - seen[k].failures].reply.Got?
  {
    if k > 0 {
      FailuresInARow(holds, seen, k - 1);
      assert GoesOn(seen[k - 1]) && Follows(holds, seen[k - 1], seen[k]);
    }
  }

  /** Every read but the last one went on: neither complete nor a fifth failure.
      The next one is sent at once if the server held it, and otherwise a poll
      interval later, or as late as the timer fires. */
  lemma ReadsFollow(s: Server, seen: seq<Read>, start: int, printed: string, i: nat)
    requires Tail(s, seen, start, printed) && i + 1 < |seen|
    ensures var r := seen[i];
      && (if r.reply.Got? then !r.reply.complete else r.failures < 5 && !s.interrupted(i))
      && (Pauses(s.holds, r) ==> !s.interruptedWaiting(i))
      && seen[i + 1].asked == r.answered + if Pauses(s.holds, r) then 1500 + s.late(i) else 0
  {
    assert GoesOn(seen[i]) && Follows(s.holds, seen[i], seen[i + 1]);
    assert seen[..i + 1][i] == seen[i];
  }

  /** A read that said nothing is followed at the earliest a poll interval after
      it began, whether or not the server holds reads; without holds, any is. */
  lemma QuietReadsAreSpaced(holds: bool, seen: seq<Read>, i: nat)
    requires Tailing(holds, seen) && i + 1 < |seen|
    requires !holds || !Says(seen[i])
    ensures seen[i].asked + 1500 <= seen[i + 1].asked
  {
    assert Follows(holds, seen[i], seen[i + 1]);
    if i > 0 {
      assert Follows(holds, seen[i - 1], seen[i]);
    }
  }
}
