/** The retry loop of the admin service (access_admin/src/service/hw_service.cpp) against the engine's runs. */
module Retry {
  import opened Options
  import opened Words
  import opened Pigeonhole
  import opened WireCodec
  import opened Domain
  import opened AnomalyDetector
  import opened ReplayHistory
  import opened FrameHandling
  import opened Decisions
  import opened GrantTable
  import opened EngineRuns
  import opened Sender
  import opened GrantBound

  /**
    One attempt at the remote engine: what other inputs the engine takes before
    it, whether the frame gets there, and what comes back.
   */
  datatype Attempt = Attempt(before: seq<Input>, env: Env, arrives: bool, reply: Reply)

  /** Status 200 with the decision, with JSON that lacks it, or with no JSON at all; or nothing usable. */
  datatype Reply = Whole | Bare | Garbled | Lost

  /** What the reader is told; a garbled reply is an exception that leaves the loop. */
  datatype HwAnswer = Answer(allow: bool, reason: Reason) | RemoteError | RemoteUnavailable | ReplyThrew

  /** The engine's run after the attempts, what the reader is told, and the places of the posts in that run. */
  datatype Delivery = Delivery(run: seq<Input>, answer: HwAnswer, posts: seq<nat>)

  function ReplyMeans(reply: Reply, out: Outcome): Option<HwAnswer> {
    if !out.Decided? || reply == Lost then None
    else
      match reply
      case Whole => Some(Answer(out.allow, out.reason))
      case Bare => Some(RemoteError)
      case _ => Some(ReplyThrew)
  }

  /** The same bytes are posted until a reply with status 200 comes back; an engine exception is not one. */
  function Deliver(sys: System, run: seq<Input>, bytes: Bytes, attempts: seq<Attempt>): (d: Delivery)
    ensures |run| <= |d.run|
    decreases |attempts|
  {
    if attempts == [] then Delivery(run, RemoteUnavailable, [])
    else
      var a := attempts[0];
      var ready := run + a.before;
      if !a.arrives then Deliver(sys, ready, bytes, attempts[1..])
      else
        var posted := ready + [Arrived(a.env, bytes)];
        var out := OutcomeAt(sys, posted, |ready|);
        if ReplyMeans(a.reply, out).Some? then Delivery(posted, ReplyMeans(a.reply, out).value, [|ready|])
        else
          var rest := Deliver(sys, posted, bytes, attempts[1..]);
          rest.(posts := [|ready|] + rest.posts)
  }

  /** The loop of three attempts; `run` is all the engine has taken so far. */
  method PostWithRetry(sys: System, run: seq<Input>, bytes: Bytes, attempts: seq<Attempt>)
    returns (after: seq<Input>, r: HwAnswer)
    requires |attempts| == 3
    ensures var d := Deliver(sys, run, bytes, attempts); after == d.run && r == d.answer
  {
    hide OutcomeAt;
    after := run;
    var attempt := 0;
    while attempt < 3
      invariant 0 <= attempt <= 3
      invariant var d, rest := Deliver(sys, run, bytes, attempts), Deliver(sys, after, bytes, attempts[attempt..]);
                d.run == rest.run && d.answer == rest.answer
    {
      var a := attempts[attempt];
      assert attempts[attempt..][0] == a && attempts[attempt..][1..] == attempts[attempt + 1..];
      after := after + a.before;
      if a.arrives {
        after := after + [Arrived(a.env, bytes)];
        var out := OutcomeAt(sys, after, |after| - 1);
        if out.Decided? && a.reply != Lost {
          if a.reply == Garbled {
            return after, ReplyThrew;
          }
          return after, if a.reply == Whole then Answer(out.allow, out.reason) else RemoteError;
        }
      }
      attempt := attempt + 1;
    }
    return after, RemoteUnavailable;
  }

  /** The posts are places of the run from `start` on, in order, each with the bytes. */
  ghost predicate PostsIn(start: nat, d: Delivery, bytes: Bytes) {
    && (forall k :: 0 <= k < |d.posts| ==> start <= d.posts[k] < |d.run|)
    && (forall k :: 0 <= k < |d.posts| ==> d.run[d.posts[k]].Arrived? && d.run[d.posts[k]].bytes == bytes)
    && (forall k, l :: 0 <= k < l < |d.posts| ==> d.posts[k] < d.posts[l])
  }

  /** An answer is the outcome of the last post. */
  ghost predicate AnswerIsLast(sys: System, d: Delivery) {
    d.answer.Answer? ==>
      && d.posts != [] && d.posts[|d.posts| - 1] < |d.run|
      && OutcomeAt(sys, d.run, d.posts[|d.posts| - 1]) == Decided(d.answer.allow, d.answer.reason)
  }

  lemma PostInFront(sys: System, start: nat, first: nat, rest: Delivery, bytes: Bytes)
    requires start <= first < |rest.run| && PostsIn(first + 1, rest, bytes)
    requires rest.run[first].Arrived? && rest.run[first].bytes == bytes
    ensures PostsIn(start, rest.(posts := [first] + rest.posts), bytes)
    ensures AnswerIsLast(sys, rest) ==> AnswerIsLast(sys, rest.(posts := [first] + rest.posts))
  {
    hide OutcomeAt;
  }

  lemma FirstPost(sys: System, ready: seq<Input>, env: Env, bytes: Bytes, reply: Reply)
    ensures
      var posted := ready + [Arrived(env, bytes)];
      var answer := ReplyMeans(reply, OutcomeAt(sys, posted, |ready|));
      answer.Some? ==>
        var d := Delivery(posted, answer.value, [|ready|]);
        PostsIn(|ready|, d, bytes) && AnswerIsLast(sys, d)
  {
    hide OutcomeAt;
  }

  lemma PostsFromEarlier(start: nat, later: nat, d: Delivery, bytes: Bytes)
    requires start <= later && PostsIn(later, d, bytes)
    ensures PostsIn(start, d, bytes)
  {
  }

  /** Each post is an input of the run, in order, and the answer is the outcome of the last one. */
  lemma {:induction false} PostsAreInputs(sys: System, run: seq<Input>, bytes: Bytes, attempts: seq<Attempt>)
    ensures
      var d := Deliver(sys, run, bytes, attempts);
      run <= d.run && |d.posts| <= |attempts| && PostsIn(|run|, d, bytes) && AnswerIsLast(sys, d)
    decreases |attempts|
  {
    hide Deliver, OutcomeAt, ReplyMeans, PostsIn, AnswerIsLast;
    if attempts == [] {
      NoPosts(sys, run, bytes);
    } else {
      var a := attempts[0];
      var ready := run + a.before;
      var next := if a.arrives then ready + [Arrived(a.env, bytes)] else ready;
      var rest := Deliver(sys, next, bytes, attempts[1..]);
      PostsAreInputs(sys, next, bytes, attempts[1..]);
      DeliverUnfolds(sys, run, bytes, attempts);
      if a.arrives {
        FirstPost(sys, ready, a.env, bytes, a.reply);
        assert rest.run[|ready|] == next[|ready|];
        PostInFront(sys, |ready|, |ready|, rest, bytes);
      }
      PostsFromEarlier(|run|, |ready|, Deliver(sys, run, bytes, attempts), bytes);
    }
  }

  lemma NoPosts(sys: System, run: seq<Input>, bytes: Bytes)
    ensures var d := Deliver(sys, run, bytes, []);
            d.run == run && d.posts == [] && PostsIn(|run|, d, bytes) && AnswerIsLast(sys, d)
  {
  }

  lemma DeliverUnfolds(sys: System, run: seq<Input>, bytes: Bytes, attempts: seq<Attempt>)
    requires attempts != []
    ensures
      var a := attempts[0];
      var ready := run + a.before;
      var posted := ready + [Arrived(a.env, bytes)];
      var answer := ReplyMeans(a.reply, OutcomeAt(sys, posted, |ready|));
      var d := Deliver(sys, run, bytes, attempts);
      if !a.arrives then d == Deliver(sys, ready, bytes, attempts[1..])
      else if answer.Some? then d == Delivery(posted, answer.value, [|ready|])
      else var rest := Deliver(sys, posted, bytes, attempts[1..]); d == rest.(posts := [|ready|] + rest.posts)
  {
    hide OutcomeAt, ReplyMeans;
  }

  /** The engine's run once these attempts were made, none of them ending the loop. */
  function RunAfter(run: seq<Input>, bytes: Bytes, attempts: seq<Attempt>): seq<Input>
    decreases |attempts|
  {
    if attempts == [] then run
    else
      var a := attempts[0];
      RunAfter(run + a.before + if a.arrives then [Arrived(a.env, bytes)] else [], bytes, attempts[1..])
  }

  /** Attempt `k`, if it comes to be made, ends the loop: it arrives, the engine decides, and a reply comes back. */
  predicate Settles(sys: System, run: seq<Input>, bytes: Bytes, attempts: seq<Attempt>, k: nat)
    requires k < |attempts|
  {
    var after := RunAfter(run, bytes, attempts[..k + 1]);
    && attempts[k].arrives && attempts[k].reply != Lost
    && after != [] && OutcomeAt(sys, after, |after| - 1).Decided?
  }

  /** The result in terms of attempt `k` alone, if it is the first to settle. */
  ghost predicate EndsAt(sys: System, run: seq<Input>, bytes: Bytes, attempts: seq<Attempt>, k: nat,
                         after: seq<Input>, answer: HwAnswer)
    requires k < |attempts|
  {
    after == RunAfter(run, bytes, attempts[..k + 1]) && after != [] &&
    var out := OutcomeAt(sys, after, |after| - 1);
    match attempts[k].reply
    case Whole => out.Decided? && answer == Answer(out.allow, out.reason)
    case Bare => answer == RemoteError
    case Garbled => answer == ReplyThrew
    case Lost => false
  }

  ghost predicate NoneSettles(sys: System, run: seq<Input>, bytes: Bytes, attempts: seq<Attempt>, k: nat)
    requires k <= |attempts|
  {
    forall j :: 0 <= j < k ==> !Settles(sys, run, bytes, attempts, j)
  }

  /** What the reader is told: by the first attempt that settles, or that the service is unavailable if none does. */
  lemma {:induction false} AnswerExactly(sys: System, run: seq<Input>, bytes: Bytes, attempts: seq<Attempt>)
    ensures
      var d := Deliver(sys, run, bytes, attempts);
      || (NoneSettles(sys, run, bytes, attempts, |attempts|)
          && d.answer == RemoteUnavailable && d.run == RunAfter(run, bytes, attempts))
      || exists k :: && 0 <= k < |attempts| && Settles(sys, run, bytes, attempts, k)
                     && NoneSettles(sys, run, bytes, attempts, k) && EndsAt(sys, run, bytes, attempts, k, d.run, d.answer)
    decreases |attempts|
  {
    hide OutcomeAt, Deliver, RunAfter, Settles, EndsAt;
    if attempts == [] {
      NoAttempts(sys, run, bytes);
    } else {
      var d, next, rest := Deliver(sys, run, bytes, attempts), AfterFirst(run, bytes, attempts), attempts[1..];
      FirstAttempt(sys, run, bytes, attempts);
      if !Settles(sys, run, bytes, attempts, 0) {
        AnswerExactly(sys, next, bytes, rest);
        forall k | 0 <= k < |rest|
          ensures Settles(sys, next, bytes, rest, k) <==> Settles(sys, run, bytes, attempts, k + 1)
          ensures EndsAt(sys, next, bytes, rest, k, d.run, d.answer) ==>
                    EndsAt(sys, run, bytes, attempts, k + 1, d.run, d.answer)
        {
          LaterAttempt(sys, run, bytes, attempts, k);
        }
        if k :| && 0 <= k < |rest| && Settles(sys, next, bytes, rest, k)
                && NoneSettles(sys, next, bytes, rest, k)
                && EndsAt(sys, next, bytes, rest, k, d.run, d.answer) {
          NoneShifts(sys, run, bytes, attempts, k);
        } else {
          NoneShifts(sys, run, bytes, attempts, |rest|);
        }
      }
    }
  }

  function AfterFirst(run: seq<Input>, bytes: Bytes, attempts: seq<Attempt>): seq<Input>
    requires attempts != []
  {
    run + attempts[0].before + if attempts[0].arrives then [Arrived(attempts[0].env, bytes)] else []
  }

  lemma NoAttempts(sys: System, run: seq<Input>, bytes: Bytes)
    ensures var d := Deliver(sys, run, bytes, []); d.answer == RemoteUnavailable && d.run == RunAfter(run, bytes, [])
  {
  }

  /** The first attempt ends the loop, or leaves the result to the others. */
  lemma FirstAttempt(sys: System, run: seq<Input>, bytes: Bytes, attempts: seq<Attempt>)
    requires attempts != []
    ensures
      var d, next := Deliver(sys, run, bytes, attempts), AfterFirst(run, bytes, attempts);
      var d' := Deliver(sys, next, bytes, attempts[1..]);
      && RunAfter(run, bytes, attempts) == RunAfter(next, bytes, attempts[1..])
      && if Settles(sys, run, bytes, attempts, 0) then EndsAt(sys, run, bytes, attempts, 0, d.run, d.answer)
         else d.run == d'.run && d.answer == d'.answer
  {
    hide OutcomeAt, Deliver;
    var next := AfterFirst(run, bytes, attempts);
    assert run + attempts[0].before + [] == run + attempts[0].before;
    assert RunAfter(run, bytes, attempts[..1]) == next by {
      assert attempts[..1][0] == attempts[0] && attempts[..1][1..] == [];
      assert RunAfter(next, bytes, []) == next;
    }
    DeliverUnfolds(sys, run, bytes, attempts);
    hide RunAfter;
    assert attempts[0].arrives ==> |next| - 1 == |run + attempts[0].before|;
  }

  lemma LaterAttempt(sys: System, run: seq<Input>, bytes: Bytes, attempts: seq<Attempt>, k: nat)
    requires k + 1 < |attempts|
    ensures
      var next, rest := AfterFirst(run, bytes, attempts), attempts[1..];
      && RunAfter(next, bytes, rest[..k + 1]) == RunAfter(run, bytes, attempts[..k + 2])
      && (Settles(sys, next, bytes, rest, k) <==> Settles(sys, run, bytes, attempts, k + 1))
      && forall after: seq<Input>, answer: HwAnswer :: EndsAt(sys, next, bytes, rest, k, after, answer) ==>
           EndsAt(sys, run, bytes, attempts, k + 1, after, answer)
  {
    hide OutcomeAt;
    assert attempts[..k + 2][0] == attempts[0] && attempts[..k + 2][1..] == attempts[1..][..k + 1];
  }

  lemma NoneShifts(sys: System, run: seq<Input>, bytes: Bytes, attempts: seq<Attempt>, k: nat)
    requires k < |attempts| && !Settles(sys, run, bytes, attempts, 0)
    requires NoneSettles(sys, AfterFirst(run, bytes, attempts), bytes, attempts[1..], k)
    ensures NoneSettles(sys, run, bytes, attempts, k + 1)
  {
    hide Settles, RunAfter, AfterFirst;
    forall j | 0 <= j < k + 1
      ensures !Settles(sys, run, bytes, attempts, j)
    {
      if j > 0 {
        LaterAttempt(sys, run, bytes, attempts, j - 1);
      }
    }
  }

  /** The posts at which the engine granted. */
  ghost predicate GrantedPost(sys: System, d: Delivery, bytes: Bytes, k: nat) {
    var h := HeaderFor(sys.config, bytes);
    k < |d.posts| && GrantedAt(sys, d.run, d.posts[k], h.readerId, h.seqNo)
  }

  /**
    What keeps a retried scan from being granted twice, whatever else reaches
    the engine meanwhile: fewer than `W` other numbers of the reader, or none
    below the scan's own, arrive among the attempts; or the detector is on,
    window and threshold protect, and no admin clears the reader.
   */
  ghost predicate RetryIsSafe(sys: System, start: nat, run: seq<Input>, bytes: Bytes)
    requires start <= |run|
  {
    var h := HeaderFor(sys.config, bytes);
    var others := ArrivedNumbers(sys, run, start, |run|, h.readerId) - {h.seqNo};
    || others == {} || |others| < sys.config.replayWindowSize
    || (forall x :: x in others ==> h.seqNo < x)
    || (&& sys.detector.enabled && Protects(sys.config.replayWindowSize, sys.detector.rollbackThreshold)
        && forall k :: start <= k < |run| ==> run[k] != Unquarantine(h.readerId))
  }

  /**
    A scan is granted at most once however often it is posted, whichever of the
    inputs carry it, and an answer of allow means the last post was granted.
   */
  lemma RetryGrantsAtMostOnce(sys: System, run: seq<Input>, bytes: Bytes, attempts: seq<Attempt>)
    requires sys.config.antiReplayEnabled
    requires var d := Deliver(sys, run, bytes, attempts); RetryIsSafe(sys, |run|, d.run, bytes)
    ensures
      var d, h := Deliver(sys, run, bytes, attempts), HeaderFor(sys.config, bytes);
      && (forall i, j :: |run| <= i < j < |d.run| && GrantedAt(sys, d.run, i, h.readerId, h.seqNo)
            ==> !GrantedAt(sys, d.run, j, h.readerId, h.seqNo))
      && (d.answer.Answer? && d.answer.allow ==> d.posts != [] && GrantedPost(sys, d, bytes, |d.posts| - 1))
  {
    hide RetryIsSafe, GrantedAt, OutcomeAt, HeaderFor, Deliver;
    var d, h := Deliver(sys, run, bytes, attempts), HeaderFor(sys.config, bytes);
    PostsAreInputs(sys, run, bytes, attempts);
    forall i, j | |run| <= i < j < |d.run| && GrantedAt(sys, d.run, i, h.readerId, h.seqNo)
      ensures !GrantedAt(sys, d.run, j, h.readerId, h.seqNo)
    {
      SafeIsGrantedOnce(sys, |run|, d.run, bytes, i, j);
    }
    if d.answer.Answer? && d.answer.allow {
      AllowedOutcomeIsGrant(sys, d.run, d.posts[|d.posts| - 1], d.answer.reason);
    }
  }

  lemma AllowedOutcomeIsGrant(sys: System, run: seq<Input>, i: nat, reason: Reason)
    requires i < |run| && run[i].Arrived? && OutcomeAt(sys, run, i) == Decided(true, reason)
    ensures var h := HeaderFor(sys.config, run[i].bytes); GrantedAt(sys, run, i, h.readerId, h.seqNo)
  {
    hide FrameStep, Run, Passes, VerdictOf, Rank, HeaderFor;
    GrantExactly(sys, Run(sys, run[..i]), run[i].env, run[i].bytes);
  }

  lemma SafeIsGrantedOnce(sys: System, start: nat, run: seq<Input>, bytes: Bytes, i: nat, j: nat)
    requires sys.config.antiReplayEnabled && start <= i < j < |run| && RetryIsSafe(sys, start, run, bytes)
    requires var h := HeaderFor(sys.config, bytes); GrantedAt(sys, run, i, h.readerId, h.seqNo)
    ensures var h := HeaderFor(sys.config, bytes); !GrantedAt(sys, run, j, h.readerId, h.seqNo)
  {
    hide GrantedAt, HeaderFor, Protects;
    var h := HeaderFor(sys.config, bytes);
    if GrantedAt(sys, run, j, h.readerId, h.seqNo) {
      RegrantNeedsFrames(sys, run, i, j, h.readerId, h.seqNo);
      FewerOthers(sys, run, start, i + 1, j, h.readerId, h.seqNo);
      if sys.detector.enabled && Protects(sys.config.replayWindowSize, sys.detector.rollbackThreshold) {
        NoDoubleGrant(sys, run, i, j, h.readerId, h.seqNo);
      }
    }
  }

  lemma FewerOthers(sys: System, run: seq<Input>, start: nat, m: nat, n: nat, r: U32, s: U64)
    requires start <= m <= n <= |run|
    ensures
      var part, whole := ArrivedNumbers(sys, run, m, n, r) - {s}, ArrivedNumbers(sys, run, start, |run|, r) - {s};
      part <= whole && |part| <= |whole|
  {
    hide HeaderFor;
    CountSubset(ArrivedNumbers(sys, run, m, n, r) - {s}, ArrivedNumbers(sys, run, start, |run|, r) - {s});
  }

  /** In this system no retried scan is granted twice, whatever else reaches the engine meanwhile. */
  ghost predicate RetryNeedsNoGuard(sys: System) {
    forall run: seq<Input>, bytes: Bytes, attempts: seq<Attempt>, k: nat, l: nat ::
      |attempts| == 3 && k < l && GrantedPost(sys, Deliver(sys, run, bytes, attempts), bytes, k)
      ==> !GrantedPost(sys, Deliver(sys, run, bytes, attempts), bytes, l)
  }

  /** The first answer is lost; before the second post the engine takes `meanwhile`. */
  function LostAnswer(env: Env, meanwhile: seq<Input>): (attempts: seq<Attempt>)
    ensures |attempts| == 3
  {
    [Attempt([], env, true, Lost), Attempt(meanwhile, env, true, Whole), Attempt([], env, false, Lost)]
  }

  /** Two grants of the same bytes in a run make two granted posts, if the first answer is lost. */
  lemma LostAnswerGrants(sys: System, env: Env, bytes: Bytes, meanwhile: seq<Input>, run: seq<Input>)
    requires run == [Arrived(env, bytes)] + meanwhile + [Arrived(env, bytes)]
    requires var h := HeaderFor(sys.config, bytes);
             GrantedAt(sys, run, 0, h.readerId, h.seqNo) && GrantedAt(sys, run, |meanwhile| + 1, h.readerId, h.seqNo)
    ensures var d := Deliver(sys, [], bytes, LostAnswer(env, meanwhile));
            GrantedPost(sys, d, bytes, 0) && GrantedPost(sys, d, bytes, 1)
  {
    hide OutcomeAt, HeaderFor, GrantedAt;
    var attempts := LostAnswer(env, meanwhile);
    var first := [] + attempts[0].before + [Arrived(env, bytes)];
    assert first == [Arrived(env, bytes)];
    assert attempts[1..][0] == attempts[1];
    GrantedIsDecided(sys, run, |meanwhile| + 1);
    assert Deliver(sys, first, bytes, attempts[1..]).posts == [|meanwhile| + 1];
  }

  lemma GrantedIsDecided(sys: System, run: seq<Input>, i: nat)
    requires i < |run| && exists r, s :: GrantedAt(sys, run, i, r, s)
    ensures OutcomeAt(sys, run, i).Decided?
  {
    hide OutcomeAt;
  }

  /** Retries need no guard at all exactly when no number is ever granted twice: one slot, or the largest threshold. */
  lemma RetryNeedsNoGuardExactly(sys: System, scan: Scan)
    requires Guards(sys) && Grantable(sys, scan)
    ensures RetryNeedsNoGuard(sys) <==> sys.config.replayWindowSize <= 1 || sys.detector.rollbackThreshold == TWO64 - 1
  {
    hide GrantedAt, Deliver, Grantable;
    if sys.config.replayWindowSize <= 1 || sys.detector.rollbackThreshold == TWO64 - 1 {
      forall run: seq<Input>, bytes: Bytes, attempts: seq<Attempt>, k: nat, l: nat |
        |attempts| == 3 && k < l && GrantedPost(sys, Deliver(sys, run, bytes, attempts), bytes, k)
        ensures !GrantedPost(sys, Deliver(sys, run, bytes, attempts), bytes, l)
      {
        var d, h := Deliver(sys, run, bytes, attempts), HeaderFor(sys.config, bytes);
        PostsAreInputs(sys, run, bytes, attempts);
        if l < |d.posts| {
          NeverAgain(sys, d.run, d.posts[k], d.posts[l], h.readerId, h.seqNo);
        }
      }
    } else {
      RetryRegrants(sys, scan);
    }
  }

  /** With two or more slots and any threshold but the largest, a lost answer and a busy reader get 1 granted twice. */
  lemma RetryRegrants(sys: System, scan: Scan)
    requires Guards(sys) && Grantable(sys, scan)
    requires 2 <= sys.config.replayWindowSize && sys.detector.rollbackThreshold < TWO64 - 1
    ensures !RetryNeedsNoGuard(sys)
  {
    hide GrantedAt, GrantedPost, Deliver, LostAnswer, Grantable, WindowSize, HeaderFor, OpenEnv, FrameWith, RegrantInputs, Distraction;
    var w := sys.config.replayWindowSize;
    var inputs := RegrantInputs(sys, scan, 1, Distraction(w));
    var env, bytes, meanwhile := OpenEnv(sys, scan), FrameWith(sys, scan, 1), inputs[1..w + 3];
    RegrantOfOne(sys, scan);
    RegrantEnds(sys, scan, 1, Distraction(w));
    OpenHeader(sys, scan, 1);
    LostAnswerGrants(sys, env, bytes, meanwhile, inputs);
    var d := Deliver(sys, [], bytes, LostAnswer(env, meanwhile));
    assert GrantedPost(sys, d, bytes, 0) && GrantedPost(sys, d, bytes, 1);
  }

  lemma RegrantEnds(sys: System, scan: Scan, s: U64, mid: History)
    ensures var inputs := RegrantInputs(sys, scan, s, mid);
            inputs == [InputWith(sys, scan, s)] + inputs[1..|mid| + 3] + [InputWith(sys, scan, s)]
  {
    hide InputWith;
  }
}
