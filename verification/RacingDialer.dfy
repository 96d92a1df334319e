/** The racing dialer as a step system: one racer per address offers its result over an
    unbuffered channel, the receiver takes results until one is a connection, and closing a
    second channel releases the racers nobody listens to any more. */
module RacingDialer {
  import opened Text

  /** What a racer's dial came to: a connection, or an error. */
  datatype Racer =
    | Dialing
    | Offering(ok: bool)
    | Delivered(ok: bool)
    | Released(ok: bool)
  {
    predicate Connected() {
      !Dialing? && ok
    }
  }

  datatype Outcome = Connection(racer: nat) | Errors

  /** The receiver waits for results, then leaves with an outcome; `Gone` is when the deferred
      close of the `returned` channel has run as well. */
  datatype Receiver = Waiting | Leaving(outcome: Outcome) | Gone(outcome: Outcome)

  datatype State = State(racers: seq<Racer>, receiver: Receiver, errs: seq<nat>, closes: seq<nat>)

  datatype Action =
    | Finish(i: nat, ok: bool)
    | Receive(i: nat)
    | GiveUp
    | Leave
    | Release(i: nat)

  function Init(n: nat): State {
    State(seq(n, _ => Dialing), Waiting, [], seq(n, _ => 0))
  }

  predicate Enabled(s: State, a: Action)
    requires |s.closes| == |s.racers|
  {
    match a
    case Finish(i, _) => i < |s.racers| && s.racers[i] == Dialing
    case Receive(i) => s.receiver == Waiting && |s.errs| < |s.racers| && i < |s.racers| && s.racers[i].Offering?
    case GiveUp => s.receiver == Waiting && |s.errs| == |s.racers|
    case Leave => s.receiver.Leaving?
    case Release(i) => s.receiver.Gone? && i < |s.racers| && s.racers[i].Offering?
  }

  function Step(s: State, a: Action): (s': State)
    requires |s.closes| == |s.racers| && Enabled(s, a)
    ensures |s'.closes| == |s'.racers| == |s.racers|
  {
    match a
    case Finish(i, ok) => s.(racers := s.racers[i := Offering(ok)])
    case Receive(i) =>
      var ok := s.racers[i].ok;
      var t := s.(racers := s.racers[i := Delivered(ok)]);
      if ok then t.(receiver := Leaving(Connection(i))) else t.(errs := s.errs + [i])
    case GiveUp => s.(receiver := Leaving(Errors))
    case Leave => s.(receiver := Gone(s.receiver.outcome))
    case Release(i) =>
      var ok := s.racers[i].ok;
      var t := s.(racers := s.racers[i := Released(ok)]);
      if ok then t.(closes := s.closes[i := s.closes[i] + 1]) else t
  }

  /** The actions can be taken one after the other. */
  predicate CanRun(s: State, actions: seq<Action>)
    requires |s.closes| == |s.racers|
    decreases |actions|
  {
    actions == [] || (Enabled(s, actions[0]) && CanRun(Step(s, actions[0]), actions[1..]))
  }

  function Run(s: State, actions: seq<Action>): (s': State)
    requires |s.closes| == |s.racers| && CanRun(s, actions)
    ensures |s'.closes| == |s'.racers| == |s.racers|
    decreases |actions|
  {
    if actions == [] then s else Run(Step(s, actions[0]), actions[1..])
  }

  // ---------------------------------------------------------------- invariants

  ghost predicate Inv(s: State) {
    && |s.closes| == |s.racers|
    && ErrsFit(s)
    && (forall i :: 0 <= i < |s.racers| ==> RacerFits(s, i))
    && OutcomeFits(s)
  }

  /** The errors collected are those of the racers that delivered one, each once. */
  ghost predicate ErrsFit(s: State) {
    && |s.errs| <= |s.racers|
    && (forall k :: 0 <= k < |s.errs| ==> s.errs[k] < |s.racers| && s.racers[s.errs[k]] == Delivered(false))
    && NoDuplicates(s.errs)
    && (forall i :: 0 <= i < |s.racers| && s.racers[i] == Delivered(false) ==> i in s.errs)
  }

  ghost predicate RacerFits(s: State, i: nat)
    requires i < |s.racers| == |s.closes|
  {
    && s.closes[i] == (if s.racers[i] == Released(true) then 1 else 0)
    && (s.racers[i].Released? ==> s.receiver.Gone?)
    && (s.racers[i] == Delivered(true) ==> !s.receiver.Waiting? && s.receiver.outcome == Connection(i))
  }

  ghost predicate OutcomeFits(s: State) {
    !s.receiver.Waiting? ==>
      match s.receiver.outcome
      case Connection(i) => i < |s.racers| && s.racers[i] == Delivered(true)
      case Errors => |s.errs| == |s.racers|
  }

  lemma InitFits(n: nat)
    ensures Inv(Init(n))
  {
  }

  lemma StepKeepsErrs(s: State, a: Action)
    requires Inv(s) && Enabled(s, a)
    ensures ErrsFit(Step(s, a))
  {
    var t := Step(s, a);
    if a.Receive? && !s.racers[a.i].ok {
      assert t.errs[|s.errs|] == a.i;
      forall i | 0 <= i < |t.racers| && t.racers[i] == Delivered(false) ensures i in t.errs {
        if i != a.i {
          assert i in s.errs;
        }
      }
    }
  }

  lemma StepKeepsInv(s: State, a: Action)
    requires Inv(s) && Enabled(s, a)
    ensures Inv(Step(s, a))
  {
    StepKeepsErrs(s, a);
    var t := Step(s, a);
    forall i | 0 <= i < |t.racers| ensures RacerFits(t, i) {
      assert RacerFits(s, i);
    }
  }

  /** Every reachable state satisfies the invariants. */
  lemma {:induction false} RunKeepsInv(s: State, actions: seq<Action>)
    requires Inv(s) && CanRun(s, actions)
    ensures Inv(Run(s, actions))
    decreases |actions|
  {
    if actions != [] {
      StepKeepsInv(s, actions[0]);
      RunKeepsInv(Step(s, actions[0]), actions[1..]);
    }
  }

  // ---------------------------------------------------------------- progress

  function RacerWork(racers: seq<Racer>): nat {
    if racers == [] then 0
    else (if racers[0].Dialing? then 2 else if racers[0].Offering? then 1 else 0) + RacerWork(racers[1..])
  }

  /** Steps still to come. */
  function Work(s: State): nat {
    RacerWork(s.racers) + (match s.receiver case Waiting => 2 case Leaving(_) => 1 case Gone(_) => 0)
  }

  lemma {:induction false} RacerWorkUpdate(racers: seq<Racer>, i: nat, r: Racer)
    requires i < |racers|
    ensures RacerWork(racers[i := r]) - RacerWork([r]) == RacerWork(racers) - RacerWork([racers[i]])
    decreases |racers|
  {
    if i == 0 {
      assert racers[0 := r][1..] == racers[1..];
    } else {
      RacerWorkUpdate(racers[1..], i - 1, r);
      assert racers[i := r][1..] == racers[1..][i - 1 := r];
    }
  }

  /** Every step uses up work, so no run is longer than two steps per racer and two more. */
  lemma StepUsesWork(s: State, a: Action)
    requires |s.closes| == |s.racers| && Enabled(s, a)
    ensures Work(Step(s, a)) < Work(s)
  {
    match a {
      case Finish(i, ok) => RacerWorkUpdate(s.racers, i, Offering(ok));
      case Receive(i) => RacerWorkUpdate(s.racers, i, Delivered(s.racers[i].ok));
      case Release(i) => RacerWorkUpdate(s.racers, i, Released(s.racers[i].ok));
      case _ =>
    }
  }

  lemma {:induction false} RunsEnd(s: State, actions: seq<Action>)
    requires |s.closes| == |s.racers| && CanRun(s, actions)
    ensures |actions| + Work(Run(s, actions)) <= Work(s)
    decreases |actions|
  {
    if actions != [] {
      StepUsesWork(s, actions[0]);
      RunsEnd(Step(s, actions[0]), actions[1..]);
    }
  }

  lemma {:induction false} InitWork(n: nat)
    ensures RacerWork(seq(n, _ => Dialing)) == 2 * n
  {
    if n > 0 {
      InitWork(n - 1);
      assert seq(n, _ => Dialing)[1..] == seq(n - 1, _ => Dialing);
    }
  }

  /** Nothing is left to happen. */
  ghost predicate Final(s: State)
    requires |s.closes| == |s.racers|
  {
    forall a :: !Enabled(s, a)
  }

  function Below(n: nat): (r: set<nat>)
    ensures |r| == n && forall i :: i in r <==> 0 <= i < n
  {
    if n == 0 then {} else Below(n - 1) + {n - 1}
  }

  lemma {:induction false} MembersFit(w: seq<nat>, s: set<nat>)
    requires forall x :: x in s ==> x in w
    ensures |s| <= |w|
    decreases |w|
  {
    if w != [] {
      forall x | x in s - {w[0]} ensures x in w[1..] {
        assert x in w;
      }
      MembersFit(w[1..], s - {w[0]});
      assert s <= (s - {w[0]}) + {w[0]};
      assert |s| <= |s - {w[0]}| + 1;
    } else {
      assert s == {};
    }
  }

  /** All racers have delivered an error exactly when the list is full. */
  lemma AllListed(s: State)
    requires Inv(s)
    ensures |s.errs| == |s.racers| <==> forall i :: 0 <= i < |s.racers| ==> s.racers[i] == Delivered(false)
  {
    if |s.errs| == |s.racers| {
      forall i | 0 <= i < |s.racers| ensures s.racers[i] == Delivered(false) {
        if i !in s.errs {
          DistinctFit(s.errs, Below(|s.racers|) - {i});
        }
      }
    }
    if forall i :: 0 <= i < |s.racers| ==> s.racers[i] == Delivered(false) {
      MembersFit(s.errs, Below(|s.racers|));
    }
  }

  /** While something is to be done, something can be done: neither the receiver nor a racer
      is ever blocked for good. */
  lemma NeverStuck(s: State)
    requires Inv(s)
    requires !s.receiver.Gone? || exists i :: 0 <= i < |s.racers| && (s.racers[i].Dialing? || s.racers[i].Offering?)
    ensures exists a :: Enabled(s, a)
  {
    AllListed(s);
    if i :| 0 <= i < |s.racers| && s.racers[i].Dialing? {
      assert Enabled(s, Finish(i, false));
    } else if i :| 0 <= i < |s.racers| && s.racers[i].Offering? {
      if s.receiver.Gone? {
        assert Enabled(s, Release(i));
      } else if s.receiver.Leaving? {
        assert Enabled(s, Leave);
      } else {
        assert i !in s.errs;
        RoomForOne(s, i);
        assert Enabled(s, Receive(i));
      }
    } else if s.receiver.Leaving? {
      assert Enabled(s, Leave);
    } else {
      forall i | 0 <= i < |s.racers| ensures s.racers[i] == Delivered(false) {
        assert RacerFits(s, i);
      }
      assert Enabled(s, GiveUp);
    }
  }

  lemma RoomForOne(s: State, i: nat)
    requires Inv(s) && i < |s.racers| && i !in s.errs
    ensures |s.errs| < |s.racers|
  {
    DistinctFit(s.errs, Below(|s.racers|) - {i});
  }

  // ---------------------------------------------------------------- what every run comes to

  /** A racer holds a connection exactly if its dial was finished with one. */
  lemma {:induction false} ConnectedByDial(s: State, actions: seq<Action>, i: nat)
    requires |s.closes| == |s.racers| && CanRun(s, actions) && i < |s.racers|
    ensures Run(s, actions).racers[i].Connected() <==> s.racers[i].Connected() || Finish(i, true) in actions
    decreases |actions|
  {
    if actions != [] {
      assert actions == [actions[0]] + actions[1..];
      assert Step(s, actions[0]).racers[i].Connected() <==> s.racers[i].Connected() || actions[0] == Finish(i, true);
      ConnectedByDial(Step(s, actions[0]), actions[1..], i);
    }
  }

  lemma Dials(n: nat, actions: seq<Action>)
    requires CanRun(Init(n), actions)
    ensures |Run(Init(n), actions).racers| == n
    ensures forall i :: 0 <= i < n ==> (Run(Init(n), actions).racers[i].Connected() <==> Finish(i, true) in actions)
  {
    forall i | 0 <= i < n ensures Run(Init(n), actions).racers[i].Connected() <==> Finish(i, true) in actions {
      ConnectedByDial(Init(n), actions, i);
    }
  }

  /** After the last step of any run of `n` racers: the function has returned, no racer is
      blocked, a connection was returned exactly when some dial succeeded, and every other
      connection opened has been closed exactly once, the returned one never. */
  lemma EveryRun(n: nat, actions: seq<Action>)
    requires CanRun(Init(n), actions) && Final(Run(Init(n), actions))
    ensures var s := Run(Init(n), actions);
            && s.receiver.Gone? && |actions| <= 2 * n + 2 && |s.racers| == n
            && (forall i :: 0 <= i < n ==> s.racers[i].Delivered? || s.racers[i].Released?)
            && (s.receiver.outcome.Connection? <==> exists i :: 0 <= i < n && Finish(i, true) in actions)
            && (forall i :: 0 <= i < n ==>
                  s.closes[i] == if Finish(i, true) in actions && s.receiver.outcome != Connection(i) then 1 else 0)
            && (s.receiver.outcome.Connection? ==> Finish(s.receiver.outcome.racer, true) in actions)
  {
    var s := Run(Init(n), actions);
    InitFits(n);
    RunKeepsInv(Init(n), actions);
    InitWork(n);
    RunsEnd(Init(n), actions);
    if !s.receiver.Gone? || exists i :: 0 <= i < |s.racers| && (s.racers[i].Dialing? || s.racers[i].Offering?) {
      NeverStuck(s);
    }
    Dials(n, actions);
    FinalState(s);
  }

  lemma FinalState(s: State)
    requires Inv(s) && s.receiver.Gone?
    requires forall i :: 0 <= i < |s.racers| ==> !s.racers[i].Dialing? && !s.racers[i].Offering?
    ensures s.receiver.outcome.Connection? <==> exists i :: 0 <= i < |s.racers| && s.racers[i].Connected()
    ensures forall i :: 0 <= i < |s.racers| ==>
              s.closes[i] == if s.racers[i].Connected() && s.receiver.outcome != Connection(i) then 1 else 0
  {
    AllListed(s);
    forall i | 0 <= i < |s.racers|
      ensures s.closes[i] == if s.racers[i].Connected() && s.receiver.outcome != Connection(i) then 1 else 0
    {
      assert RacerFits(s, i);
    }
  }

  /** At any moment of any run: no connection is closed twice, the returned one not at all,
      and when the function fails no dial has come to a connection. */
  lemma AnyMoment(n: nat, actions: seq<Action>)
    requires CanRun(Init(n), actions)
    ensures var s := Run(Init(n), actions);
            && |s.racers| == n && (forall i :: 0 <= i < n ==> s.closes[i] <= 1)
            && (!s.receiver.Waiting? ==>
                  match s.receiver.outcome
                  case Connection(i) => i < n && Finish(i, true) in actions && s.closes[i] == 0
                  case Errors => forall i :: 0 <= i < n ==>
                    s.racers[i] == Delivered(false) && Finish(i, true) !in actions)
  {
    var s := Run(Init(n), actions);
    InitFits(n);
    RunKeepsInv(Init(n), actions);
    AllListed(s);
    Dials(n, actions);
    forall i | 0 <= i < n
      ensures s.closes[i] <= 1 && (s.racers[i] == Delivered(true) ==> s.closes[i] == 0)
    {
      assert RacerFits(s, i);
    }
  }

  /** Once the function is leaving with an outcome, nothing changes it any more. */
  lemma {:induction false} OutcomeStays(s: State, actions: seq<Action>)
    requires |s.closes| == |s.racers| && CanRun(s, actions) && !s.receiver.Waiting?
    ensures !Run(s, actions).receiver.Waiting? && Run(s, actions).receiver.outcome == s.receiver.outcome
    decreases |actions|
  {
    if actions != [] {
      OutcomeStays(Step(s, actions[0]), actions[1..]);
    }
  }
}
