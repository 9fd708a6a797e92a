/**
 The connection pool of `tcp_server`: lock-protected steps, interleaved in any order.
 */
module ConnectionPool {

  datatype Stopper = NotStopping | StopWaits | StopReturned

  /**
   The server between two lock-protected steps.  `listens` counts calls of `listen` on their
   way to the lock, `finishing` holds the connections whose `finish_connection` is on its way
   to it, and `active` the connections some reader, writer or handshake refers to.
   */
  datatype Server = Server(
    started: bool, listening: bool, pool: set<nat>,
    accepting: set<nat>, listens: nat, active: set<nat>, finishing: set<nat>,
    next: nat, redispatches: nat, stopper: Stopper)

  const INITIAL := Server(false, false, {}, {}, 0, {}, {}, 0, 0, NotStopping)

  /** The connections that something besides the pool still refers to. */
  function Held(s: Server): set<nat> {
    s.accepting + s.active + s.finishing
  }

  /** `prune_connections`: the pool keeps what is still referred to. */
  function Pruned(s: Server): set<nat> {
    s.pool * Held(s)
  }

  datatype Label =
    | Start                                // start() up to its unlock
    | Listen                               // listen() under the lock
    | Accept(c: nat, failed: bool)         // handle_accept, which reads `listening` without the lock
    | Complete(c: nat)                     // a response is sent or a handshake fails: finish() is called
    | Abandon(c: nat)                      // the last outside reference goes away without finish()
    | FinishConnection(c: nat, keepAlive: bool)
    | Stop                                 // stop() up to its loop
    | StopTurn                             // one turn of the loop in stop()

  predicate Enabled(s: Server, l: Label) {
    match l
    case Start => !s.started
    case Listen => s.listens > 0
    case Accept(c, _) => c in s.accepting
    case Complete(c) => c in s.active
    case Abandon(c) => c in s.active
    case FinishConnection(c, _) => c in s.finishing
    case Stop => s.listening && s.stopper.NotStopping?
    case StopTurn => s.stopper.StopWaits?
  }

  function Apply(s: Server, l: Label): Server
    requires Enabled(s, l)
  {
    match l
    case Start => s.(started := true, listening := true, listens := s.listens + 1)
    case Listen =>
      if !s.listening then s.(listens := s.listens - 1)
      else s.(listens := s.listens - 1, pool := Pruned(s) + {s.next},
              accepting := s.accepting + {s.next}, next := s.next + 1)
    case Accept(c, failed) =>
      var t := s.(accepting := s.accepting - {c}, listens := if s.listening then s.listens + 1 else s.listens);
      if failed then t.(finishing := s.finishing + {c}) else t.(active := s.active + {c})
    case Complete(c) => s.(active := s.active - {c}, finishing := s.finishing + {c})
    case Abandon(c) => s.(active := s.active - {c})
    case FinishConnection(c, keepAlive) =>
      var t := s.(finishing := s.finishing - {c});
      if s.listening && keepAlive then t.(active := s.active + {c}, redispatches := s.redispatches + 1)
      else t.(pool := s.pool - {c})
    case Stop => s.(listening := false, stopper := StopWaits)
    case StopTurn =>
      var left := Pruned(s);
      s.(pool := left, stopper := if left == {} then StopReturned else StopWaits)
  }

  /** Connections are numbered in the order of their creation. */
  predicate Below(cs: set<nat>, n: nat) {
    forall c | c in cs :: c < n
  }

  /** The invariant of every interleaving. */
  predicate Safe(s: Server) {
    // while listening exactly one accept is outstanding or about to be; never more than one
    && (s.listening ==> s.started && s.stopper.NotStopping? && s.listens + |s.accepting| == 1)
    && s.listens + |s.accepting| <= 1
    && (!s.started ==> s.listens == 0 && s.accepting == {})
    // an outstanding accept belongs to a connection of the pool, and to nothing else
    && s.accepting <= s.pool && s.accepting !! (s.active + s.finishing)
    // every connection in use is in the pool, and in use in one way only
    && s.active + s.finishing <= s.pool && s.active !! s.finishing
    && Below(s.pool, s.next) && Below(s.accepting, s.next) && Below(s.active, s.next) && Below(s.finishing, s.next)
    // stop returns with the pool empty
    && (s.stopper.StopReturned? ==> s.pool == {}) && (!s.stopper.NotStopping? ==> s.started)
  }

  lemma RemoveOne(a: set<nat>, c: nat)
    requires c in a && |a| <= 1
    ensures a - {c} == {}
  {
    assert |a - {c}| == |a| - 1;
  }

  lemma ListenKeepsSafe(s: Server)
    requires Safe(s) && s.listens > 0
    ensures Safe(Apply(s, Listen))
  {
    if s.listening {
      assert s.accepting == {} && s.accepting + {s.next} == {s.next};
      var t := Apply(s, Listen);
      assert t.active == s.active && t.finishing == s.finishing && s.next !in s.active + s.finishing;
    }
  }

  lemma AcceptKeepsSafe(s: Server, c: nat, failed: bool)
    requires Safe(s) && c in s.accepting
    ensures Safe(Apply(s, Accept(c, failed)))
  {
    RemoveOne(s.accepting, c);
    assert |s.accepting| == 1 by { assert s.accepting == {c}; }
  }

  lemma FinishKeepsSafe(s: Server, c: nat, keepAlive: bool)
    requires Safe(s) && c in s.finishing
    ensures Safe(Apply(s, FinishConnection(c, keepAlive)))
  {
    assert c !in s.accepting;
  }

  lemma StepKeepsSafe(s: Server, l: Label)
    requires Safe(s) && Enabled(s, l)
    ensures Safe(Apply(s, l))
  {
    match l
    case Listen => ListenKeepsSafe(s);
    case Accept(c, failed) => AcceptKeepsSafe(s, c, failed);
    case FinishConnection(c, keepAlive) => FinishKeepsSafe(s, c, keepAlive);
    case _ => assert Safe(Apply(s, l));
  }

  /** The server has been told to stop. */
  predicate Stopping(s: Server) {
    Safe(s) && s.started && !s.listening
  }

  /** What cannot come back once the server is stopping. */
  predicate Quieter(s: Server, t: Server) {
    && t.pool <= s.pool && t.redispatches == s.redispatches
    && (s.stopper.StopReturned? ==>
          t.stopper.StopReturned? && t.pool == {} && t.accepting == {} && t.active == {} && t.finishing == {})
  }

  /** After `stop` took over: the pool does not grow, nothing is dispatched again, and it stays so. */
  lemma StepAfterStop(s: Server, l: Label)
    requires Stopping(s) && Enabled(s, l)
    ensures Stopping(Apply(s, l)) && Quieter(s, Apply(s, l))
  {
    StepKeepsSafe(s, l);
  }

  /** A run from the initial state through any steps. */
  predicate IsRun(states: seq<Server>, labels: seq<Label>) {
    && |states| == |labels| + 1 && states[0] == INITIAL
    && forall i | 0 <= i < |labels| :: Enabled(states[i], labels[i]) && states[i + 1] == Apply(states[i], labels[i])
  }

  lemma {:induction false} RunsAreSafe(states: seq<Server>, labels: seq<Label>, i: nat)
    requires IsRun(states, labels) && i < |states|
    ensures Safe(states[i])
  {
    if i > 0 {
      RunsAreSafe(states, labels, i - 1);
      StepKeepsSafe(states[i - 1], labels[i - 1]);
    }
  }

  /**
   Pool safety over whole runs: from the moment `stop` clears `listening`, the pool only
   shrinks and no connection is dispatched again; once `stop` has returned the pool is empty
   and stays empty, and nothing is accepted, active or finishing any more.
   */
  lemma {:induction false} NothingAfterStop(states: seq<Server>, labels: seq<Label>, i: nat, j: nat)
    requires IsRun(states, labels) && i <= j < |states| && states[i].started && !states[i].listening
    ensures Stopping(states[j]) && Quieter(states[i], states[j])
    decreases j - i
  {
    if i == j {
      RunsAreSafe(states, labels, i);
    } else {
      NothingAfterStop(states, labels, i, j - 1);
      StepAfterStop(states[j - 1], labels[j - 1]);
    }
  }

  /** At most one accept is outstanding in every reachable state, and its connection is in the pool. */
  lemma OneAccept(states: seq<Server>, labels: seq<Label>, i: nat)
    requires IsRun(states, labels) && i < |states|
    ensures |states[i].accepting| <= 1 && states[i].accepting <= states[i].pool
    ensures states[i].listening ==> |states[i].accepting| + states[i].listens == 1
  {
    RunsAreSafe(states, labels, i);
  }

  // What a connection lives through.

  /** The step by which the connection `c` goes out of use. */
  predicate Releases(s: Server, l: Label, c: nat) {
    l == Abandon(c) || (l.FinishConnection? && l.c == c && !(s.listening && l.keepAlive))
  }

  /** Some shared pointer besides the pool's refers to `c`. */
  predicate InUse(s: Server, c: nat) {
    c in s.accepting || c in s.active || c in s.finishing
  }

  /** What the invariant says of one connection. */
  lemma UsedInOneWay(s: Server, c: nat)
    requires Safe(s) && InUse(s, c)
    ensures c in s.pool && c < s.next
    ensures c in s.accepting ==> c !in s.active && c !in s.finishing
    ensures c in s.active ==> c !in s.finishing
  {
    assert c in s.accepting ==> c !in s.active + s.finishing;
  }

  /** A connection in use stays so except by such a step. */
  lemma StepKeepsInUse(s: Server, l: Label, c: nat)
    requires Safe(s) && Enabled(s, l) && InUse(s, c)
    ensures InUse(Apply(s, l), c) <==> !Releases(s, l, c)
  {
    UsedInOneWay(s, c);
    match l
    case Accept(o, failed) =>
    case Complete(o) =>
    case Abandon(o) =>
    case FinishConnection(o, keepAlive) =>
    case _ =>
  }

  /** A connection out of use stays so. */
  lemma StepKeepsUnused(s: Server, l: Label, c: nat)
    requires Enabled(s, l) && !InUse(s, c) && c < s.next
    ensures !InUse(Apply(s, l), c) && c < Apply(s, l).next
  {
  }

  lemma StepUse(s: Server, l: Label, c: nat)
    requires Safe(s) && Enabled(s, l) && c < s.next
    ensures InUse(Apply(s, l), c) <==> InUse(s, c) && !Releases(s, l, c)
    ensures c < Apply(s, l).next
  {
    if InUse(s, c) {
      StepKeepsInUse(s, l, c);
    } else {
      StepKeepsUnused(s, l, c);
    }
  }

  /** The same for a step of a run. */
  lemma RunUse(states: seq<Server>, labels: seq<Label>, k: nat, c: nat)
    requires IsRun(states, labels) && k < |labels| && c < states[k].next
    ensures InUse(states[k + 1], c) <==> InUse(states[k], c) && !Releases(states[k], labels[k], c)
    ensures c < states[k + 1].next
  {
    RunsAreSafe(states, labels, k);
    StepUse(states[k], labels[k], c);
  }

  /** Some step from the state `i` up to the state `j` releases the connection. */
  predicate ReleasedIn(states: seq<Server>, labels: seq<Label>, i: nat, j: nat, c: nat)
    requires i <= j < |states| == |labels| + 1
  {
    exists k | i <= k < j :: Releases(states[k], labels[k], c)
  }

  lemma ReleasedByLast(states: seq<Server>, labels: seq<Label>, i: nat, j: nat, c: nat)
    requires i < j < |states| == |labels| + 1
    ensures ReleasedIn(states, labels, i, j, c)
       <==> ReleasedIn(states, labels, i, j - 1, c) || Releases(states[j - 1], labels[j - 1], c)
  {
  }

  /**
   Over any part of any run: a connection in use is in use at the end, and in the pool, if and
   only if no step in between was its release.  In particular pruning never drops it.
   */
  lemma InUseUntilReleased(states: seq<Server>, labels: seq<Label>, i: nat, j: nat, c: nat)
    requires IsRun(states, labels) && i <= j < |states| && InUse(states[i], c)
    ensures InUse(states[j], c) <==> !ReleasedIn(states, labels, i, j, c)
    ensures InUse(states[j], c) ==> c in states[j].pool
  {
    RunsAreSafe(states, labels, i);
    UsedInOneWay(states[i], c);
    UseOverRun(states, labels, i, j, c);
    RunsAreSafe(states, labels, j);
    if InUse(states[j], c) {
      UsedInOneWay(states[j], c);
    }
  }

  lemma {:induction false} UseOverRun(states: seq<Server>, labels: seq<Label>, i: nat, j: nat, c: nat)
    requires IsRun(states, labels) && i <= j < |states| && InUse(states[i], c) && c < states[i].next
    ensures InUse(states[j], c) <==> !ReleasedIn(states, labels, i, j, c)
    ensures c < states[j].next
    decreases j - i
  {
    if i < j {
      UseOverRun(states, labels, i, j - 1, c);
      RunUse(states, labels, j - 1, c);
      ReleasedByLast(states, labels, i, j, c);
    }
  }

  /** While the server listens, a connection that is to be kept is dispatched again; any other one is gone. */
  lemma KeptOrGone(s: Server, c: nat, keepAlive: bool)
    requires Safe(s) && c in s.finishing
    ensures var t := Apply(s, FinishConnection(c, keepAlive));
      if s.listening && keepAlive then c in t.active && c in t.pool && t.redispatches == s.redispatches + 1
      else !InUse(t, c) && c !in t.pool && t.redispatches == s.redispatches
  {
  }

  /** An accepted connection is dispatched, a failed one finished, and the server goes on to the next accept. */
  lemma AcceptedIsUsed(s: Server, c: nat, failed: bool)
    requires Safe(s) && c in s.accepting
    ensures var t := Apply(s, Accept(c, failed));
      && (if failed then c in t.finishing && c !in t.active else c in t.active && c !in t.finishing)
      && c in t.pool && t.accepting == {} && t.listens == if s.listening then 1 else 0
  {
    AcceptKeepsSafe(s, c, failed);
    RemoveOne(s.accepting, c);
    assert |s.accepting| == 1 by { assert s.accepting == {c}; }
  }

  /** The lock-protected members of `tcp_server`; `held` is what the shared pointers say. */
  class TcpServer {
    var listening: bool
    var connPool: set<nat>

    /** The fields agree with a state of the machine. */
    ghost predicate Matches(s: Server)
      reads this
    {
      listening == s.listening && connPool == s.pool
    }

    /** `prune_connections`: a walk over the pool that erases what only the pool refers to. */
    method PruneConnections(held: set<nat>) returns (left: nat)
      modifies `connPool
      ensures connPool == old(connPool) * held && left == |connPool|
    {
      var todo := connPool;
      while todo != {}
        invariant todo <= old(connPool) && connPool == old(connPool) * held + todo
        decreases |todo|
      {
        var c :| c in todo;
        todo := todo - {c};
        if c !in held {
          connPool := connPool - {c};
        }
      }
      left := |connPool|;
    }

    /** `listen` under the lock; the new connection gets the next number. */
    method ListenStep(held: set<nat>, id: nat, ghost s: Server) returns (accepting: bool)
      requires Matches(s) && Safe(s) && s.listens > 0 && held == Held(s) && id == s.next
      modifies `connPool
      ensures Matches(Apply(s, Listen)) && accepting == listening
      ensures accepting ==> id in Apply(s, Listen).accepting
    {
      accepting := listening;
      if listening {
        var _ := PruneConnections(held);
        connPool := connPool + {id};
      }
    }

    /** `finish_connection`; a kept connection goes back to `handle_connection`. */
    method FinishStep(c: nat, keepAlive: bool, ghost s: Server) returns (dispatch: bool)
      requires Matches(s) && Safe(s) && c in s.finishing
      modifies `connPool
      ensures var t := Apply(s, FinishConnection(c, keepAlive));
        Matches(t) && dispatch == (t.redispatches > s.redispatches) && (dispatch ==> c in t.active)
    {
      dispatch := listening && keepAlive;
      if !dispatch {
        connPool := connPool - {c};
      }
    }

    /** One turn of the loop in `stop`: it returns exactly when the pool is empty. */
    method StopStep(held: set<nat>, ghost s: Server) returns (returned: bool)
      requires Matches(s) && s.stopper.StopWaits? && held == Held(s)
      modifies `connPool
      ensures var t := Apply(s, StopTurn);
        Matches(t) && returned == t.stopper.StopReturned? && (returned <==> connPool == {})
    {
      if connPool == {} {
        assert Pruned(s) == {};
        return true;
      }
      var left := PruneConnections(held);
      returned := left == 0;
    }
  }
}
