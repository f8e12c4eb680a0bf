/** The interaction states of the overlay view and the rule that decides
    whether a requested state change is admitted. */
module States {

  /** MEState: exactly one of these is active at a time. */
  datatype MEState = Idle | Creating | Modifying | Deleting

  /** The enum's numeric value (MEState is an NSUInteger; the constants count from 0). */
  function Code(s: MEState): (n: nat)
    ensures n < 4
  {
    match s
    case Idle => 0
    case Creating => 1
    case Modifying => 2
    case Deleting => 3
  }

  /** The state an NSUInteger stands for, or None for a value that names no state. */
  datatype Option<T> = None | Some(value: T)

  function StateOfCode(n: nat): (r: Option<MEState>)
    ensures r.Some? <==> n < 4
    ensures r.Some? ==> Code(r.value) == n
  {
    if n == 0 then Some(Idle)
    else if n == 1 then Some(Creating)
    else if n == 2 then Some(Modifying)
    else if n == 3 then Some(Deleting)
    else None
  }

  /** Decoding the code of a state gives the state back: the encoding is injective. */
  lemma CodeRoundTrip(s: MEState)
    ensures StateOfCode(Code(s)) == Some(s)
  {
  }

  /** ASSUMED admission rule for enterState: the header leaves it as an open
      "discussion about allowances". Going back to Idle and staying in the
      current state are always admitted; each editing state is admitted only
      while its allows... flag is set. */
  predicate Admits(current: MEState, target: MEState,
                   allowsCreating: bool, allowsModifying: bool, allowsDeleting: bool)
  {
    target == Idle || target == current ||
    (target == Creating && allowsCreating) ||
    (target == Modifying && allowsModifying) ||
    (target == Deleting && allowsDeleting)
  }

  /** The state after a request: the target when admitted, else the current one. */
  function Next(current: MEState, target: MEState,
                allowsCreating: bool, allowsModifying: bool, allowsDeleting: bool): (r: MEState)
    ensures r == target <==> Admits(current, target, allowsCreating, allowsModifying, allowsDeleting)
    ensures r == target || r == current
  {
    if Admits(current, target, allowsCreating, allowsModifying, allowsDeleting) then target else current
  }

  /** States after each of a series of requests, made under fixed flags. */
  function Run(current: MEState, requests: seq<MEState>,
               allowsCreating: bool, allowsModifying: bool, allowsDeleting: bool): (r: seq<MEState>)
    ensures |r| == |requests|
    decreases requests
  {
    if requests == [] then []
    else
      var s := Next(current, requests[0], allowsCreating, allowsModifying, allowsDeleting);
      [s] + Run(s, requests[1..], allowsCreating, allowsModifying, allowsDeleting)
  }

  /** Over any series of requests, the state after request k is the requested
      one exactly when the rule admits it from the state before; otherwise the
      state is the one before. */
  lemma {:induction false} RunFollowsRequests(current: MEState, requests: seq<MEState>,
                                              allowsCreating: bool, allowsModifying: bool,
                                              allowsDeleting: bool, k: nat)
    requires k < |requests|
    decreases requests
    ensures var r := Run(current, requests, allowsCreating, allowsModifying, allowsDeleting);
            var before := if k == 0 then current else r[k - 1];
            (r[k] == requests[k] <==> Admits(before, requests[k], allowsCreating, allowsModifying, allowsDeleting)) &&
            (r[k] != requests[k] ==> r[k] == before)
  {
    if k > 0 {
      var s := Next(current, requests[0], allowsCreating, allowsModifying, allowsDeleting);
      RunFollowsRequests(s, requests[1..], allowsCreating, allowsModifying, allowsDeleting, k - 1);
    }
  }

  /** Under the assumed admission rule Admits (not a rule the header states):
      with every editing flag off, no series of requests ever leaves Idle. */
  lemma {:induction false} LockedViewStaysIdle(requests: seq<MEState>, k: nat)
    requires k < |requests|
    ensures Run(Idle, requests, false, false, false)[k] == Idle
  {
    if k > 0 {
      LockedViewStaysIdle(requests[1..], k - 1);
    }
  }
}
