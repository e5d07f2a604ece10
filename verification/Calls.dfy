/** What the collector knows of a ping, from the calls it got (internal/probe/scheduler.go): by which of them it was
    answered, stamped, refused and sent. */
module Calls {
  import opened Options
  import opened Collector

  /** The first answer to ping i. */
  ghost predicate FirstAnswerAt(calls: seq<Call>, k: int, i: nat) {
    0 <= k < |calls| && Answers(calls[k], i) && forall j :: 0 <= j < k ==> !Answers(calls[j], i)
  }

  ghost predicate AnsweredBy(calls: seq<Call>, k: int, i: nat, p: Ping) {
    && FirstAnswerAt(calls, k, i) && p.rx == Some(When(calls[k]))
    && p.rxKernel == (calls[k].Reply? && calls[k].kernel)
  }

  ghost predicate Answered(calls: seq<Call>, i: nat) { exists k :: FirstAnswerAt(calls, k, i) }

  lemma SameFirstAnswer(calls: seq<Call>, i: nat)
    requires calls != []
    ensures var m := |calls| - 1;
      && (forall k :: k < m ==> (FirstAnswerAt(calls, k, i) <==> FirstAnswerAt(calls[..m], k, i)))
      && (FirstAnswerAt(calls, m, i) <==> Answers(calls[m], i) && !Answered(calls[..m], i))
  {
    var m := |calls| - 1;
    hide Answers;
    forall j | 0 <= j < m ensures calls[..m][j] == calls[j] {
    }
    if Answered(calls[..m], i) {
      var k :| FirstAnswerAt(calls[..m], k, i);
      assert Answers(calls[k], i);
    } else {
      NoneAnswers(calls[..m], i);
    }
  }

  lemma {:induction false} NoneAnswers(calls: seq<Call>, i: nat)
    requires !Answered(calls, i)
    ensures forall j :: 0 <= j < |calls| ==> !Answers(calls[j], i)
  {
    hide Answers;
    if j :| 0 <= j < |calls| && Answers(calls[j], i) {
      var k := EarliestAnswer(calls, j, i);
    }
  }

  lemma EarliestAnswer(calls: seq<Call>, j: int, i: nat) returns (k: int)
    requires 0 <= j < |calls| && Answers(calls[j], i)
    ensures FirstAnswerAt(calls, k, i)
  {
    hide Answers;
    k := 0;
    while !Answers(calls[k], i)
      invariant 0 <= k <= j && forall h :: 0 <= h < k ==> !Answers(calls[h], i)
      decreases j - k
    {
      k := k + 1;
    }
  }

  lemma AfterLast(n: nat, calls: seq<Call>)
    requires Fit(n, calls) && calls != []
    ensures var m := |calls| - 1;
      Fit(n, calls[..m]) && calls[m].i < n && After(n, calls) == Handled(false, After(n, calls[..m]), calls[m])
  {
    hide Handled;
  }

  /** A ping is answered at the time, and by the clock, of the first call that answers it.. */
  lemma {:induction false} AnsweredAtTheFirst(n: nat, calls: seq<Call>, i: nat)
    requires Fit(n, calls) && i < n
    ensures After(n, calls)[i].rx.Some? <==> Answered(calls, i)
    ensures Answered(calls, i) ==> exists k :: AnsweredBy(calls, k, i, After(n, calls)[i])
  {
    if calls == [] {
      assert After(n, calls)[i] == NEW;
    } else {
      var m := |calls| - 1;
      var rest := calls[..m];
      AfterLast(n, calls);
      AnsweredAtTheFirst(n, rest, i);
      SameFirstAnswer(calls, i);
      hide After, FirstAnswerAt, Fit;
      if Answered(rest, i) {
        var k :| AnsweredBy(rest, k, i, After(n, rest)[i]);
        InFront(rest, k, i);
        assert AnsweredBy(calls, k, i, After(n, calls)[i]);
      } else if Answers(calls[m], i) {
        assert AnsweredBy(calls, m, i, After(n, calls)[i]);
      } else {
        NothingAnswers(calls, i);
      }
    }
  }

  lemma InFront(calls: seq<Call>, k: int, i: nat)
    requires FirstAnswerAt(calls, k, i)
    ensures 0 <= k < |calls|
  {
  }

  lemma NothingAnswers(calls: seq<Call>, i: nat)
    requires calls != [] && !Answered(calls[..|calls| - 1], i) && !Answers(calls[|calls| - 1], i)
    ensures !Answered(calls, i)
  {
    SameFirstAnswer(calls, i);
    hide FirstAnswerAt;
    forall k ensures !FirstAnswerAt(calls, k, i) {
      if FirstAnswerAt(calls, k, i) {
        InFront(calls, k, i);
      }
    }
  }

  // ---------------------------------------------------------------- the last call of a kind

  datatype Kind = Stamping | Failing | Timing

  /** Call k stamps ping i, refuses it, or says when it went out: a send does, and a round trip that answers first. */
  ghost predicate Does(kind: Kind, calls: seq<Call>, k: int, i: nat) {
    && 0 <= k < |calls| && calls[k].i == i
    && match kind
       case Stamping => calls[k].Stamp?
       case Failing => calls[k].Failed?
       case Timing => calls[k].Sent? || (calls[k].RoundTrip? && FirstAnswerAt(calls, k, i))
  }

  ghost predicate LastToDo(kind: Kind, calls: seq<Call>, k: int, i: nat) {
    Does(kind, calls, k, i) && forall j :: Does(kind, calls, j, i) ==> j <= k
  }

  /** What the ping has of it. */
  ghost predicate Shows(kind: Kind, e: Call, p: Ping) {
    match kind
    case Stamping => e.Stamp? && p.txKern == Some(e.at)
    case Failing => e.Failed? && p.sendFailed && p.sendReason == e.reason
    case Timing => (e.Sent? && p.txUser == e.txUser) || (e.RoundTrip? && p.txUser == e.now - e.rtt)
  }

  ghost predicate Blank(kind: Kind, p: Ping) {
    match kind
    case Stamping => p.txKern == None
    case Failing => !p.sendFailed && p.sendReason == 0
    case Timing => p.txUser == 0
  }

  lemma SameDoes(kind: Kind, calls: seq<Call>, i: nat)
    requires calls != []
    ensures forall k :: k < |calls| - 1 ==> (Does(kind, calls, k, i) <==> Does(kind, calls[..|calls| - 1], k, i))
    ensures forall k :: Does(kind, calls, k, i) ==> 0 <= k < |calls|
  {
    SameFirstAnswer(calls, i);
    hide FirstAnswerAt;
  }

  lemma LastCallShows(kind: Kind, n: nat, calls: seq<Call>, i: nat)
    requires Fit(n, calls) && i < n && calls != []
    ensures var m := |calls| - 1;
      && Fit(n, calls[..m])
      && var p, q := After(n, calls[..m])[i], After(n, calls)[i];
      if Does(kind, calls, m, i) then Shows(kind, calls[m], q)
      else (Blank(kind, p) ==> Blank(kind, q)) && forall e :: Shows(kind, e, p) ==> Shows(kind, e, q)
  {
    var m := |calls| - 1;
    AfterLast(n, calls);
    AnsweredAtTheFirst(n, calls[..m], i);
    SameFirstAnswer(calls, i);
    hide After, Fit, FirstAnswerAt, Answered, AnsweredBy;
  }

  /** .. and stamped, refused and sent as the last such call says, if there is one. */
  lemma {:induction false} LastCallCounts(kind: Kind, n: nat, calls: seq<Call>, i: nat)
    requires Fit(n, calls) && i < n
    ensures (forall k :: !Does(kind, calls, k, i)) ==> Blank(kind, After(n, calls)[i])
    ensures (exists k :: Does(kind, calls, k, i)) ==>
      exists k :: LastToDo(kind, calls, k, i) && Shows(kind, calls[k], After(n, calls)[i])
  {
    if calls == [] {
      assert After(n, calls)[i] == NEW;
    } else {
      var m := |calls| - 1;
      var rest := calls[..m];
      AfterLast(n, calls);
      LastCallCounts(kind, n, rest, i);
      SameDoes(kind, calls, i);
      LastCallShows(kind, n, calls, i);
      hide After, Fit, Does, Shows, Blank;
      forall k | Does(kind, rest, k, i) ensures Does(kind, calls, k, i) {
        DoesIn(kind, rest, k, i);
      }
      if Does(kind, calls, m, i) {
        assert LastToDo(kind, calls, m, i);
      } else if k :| Does(kind, calls, k, i) {
        assert Does(kind, rest, k, i);
        var l :| LastToDo(kind, rest, l, i) && Shows(kind, rest[l], After(n, rest)[i]);
        DoesIn(kind, rest, l, i);
        assert Does(kind, calls, l, i);
        forall j | Does(kind, calls, j, i) ensures j <= l {
          assert Does(kind, rest, j, i);
        }
        assert LastToDo(kind, calls, l, i) && calls[l] == rest[l];
      }
    }
  }

  lemma DoesIn(kind: Kind, calls: seq<Call>, k: int, i: nat)
    requires Does(kind, calls, k, i)
    ensures 0 <= k < |calls|
  {
  }
}
