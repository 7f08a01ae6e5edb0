/** The registration ledger behind the direct-message handler: one counter,
    the set of addresses taken by fresh registrations, and the map from user
    to the address that user registered. Each submission is decided in a
    fixed order: already submitted, address format, address already taken
    (then the booster override), and finally the cap on fresh registrations. */
module Registration {
  import opened AddressValidator

  /** A platform user id (an integer snowflake). */
  type UserId = int

  /** Submitted text, already trimmed by the caller. */
  type Address = string

  /** The fresh-address path accepts only while the shared counter is below this. */
  const Limit: nat := 99

  datatype Option<T> = None | Some(value: T)

  /** What one submission produces; every input maps to exactly one of these. */
  datatype Outcome =
    | AlreadySubmitted(existing: Address)  // the user already holds a registration
    | InvalidFormat                        // the text fails the address check
    | DuplicateRejected                    // the address is taken and the override does not apply
    | BoosterAccepted(number: nat)         // taken address accepted for a boosting member
    | Accepted(number: nat)                // fresh address accepted
    | LimitReached                         // fresh address, but the counter is at the limit
  {
    predicate IsAcceptance() {
      BoosterAccepted? || Accepted?
    }
  }

  /** One direct message as the ledger sees it. `boosted` and `memberOnServer`
      are the answers of the guild lookups, which only the taken-address
      branch consults. */
  datatype Submission = Submission(user: UserId, content: Address, boosted: bool, memberOnServer: bool)

  /** The three process-wide values, as one value. */
  datatype LedgerState = LedgerState(validCount: nat, recorded: set<Address>, users: map<UserId, Address>)
  {
    /** What every reachable state satisfies: one count per registered user,
        only valid addresses stored, every taken address held by some user,
        and no more taken addresses than the count or the limit allow. */
    ghost predicate Valid() {
      && validCount == |users|
      && (forall u | u in users :: IsValidSolanaAddress(users[u]))
      && (forall a | a in recorded :: exists u | u in users :: users[u] == a)
      && |recorded| <= validCount
      && |recorded| <= Limit
    }
  }

  /** The state at process start. */
  function Init(): (s: LedgerState)
    ensures s.Valid()
    ensures s.validCount == 0 && s.recorded == {} && s.users == map[]
  {
    LedgerState(0, {}, map[])
  }

  datatype StepResult = StepResult(next: LedgerState, outcome: Outcome)

  /** The decision for one submission and the state it leaves behind. */
  function Step(s: LedgerState, m: Submission): (r: StepResult)
    // a rejection changes nothing
    ensures !r.outcome.IsAcceptance() ==> r.next == s
    // an acceptance takes the next number and registers the user once
    ensures r.outcome.IsAcceptance() ==>
      && m.user !in s.users
      && IsValidSolanaAddress(m.content)
      && r.next.validCount == s.validCount + 1
      && r.outcome.number == r.next.validCount
      && r.next.users == s.users[m.user := m.content]
      && r.next.recorded == s.recorded + {m.content}
    // the fresh path only hands out numbers up to the limit; the override has no cap
    ensures r.outcome.Accepted? ==> r.outcome.number <= Limit && m.content !in s.recorded
    ensures r.outcome.BoosterAccepted? ==> m.content in s.recorded && m.boosted && m.memberOnServer
  {
    if m.user in s.users then
      StepResult(s, AlreadySubmitted(s.users[m.user]))
    else if !IsValidSolanaAddress(m.content) then
      StepResult(s, InvalidFormat)
    else if m.content in s.recorded then
      if m.boosted && m.memberOnServer then
        var n := s.validCount + 1;
        StepResult(LedgerState(n, s.recorded, s.users[m.user := m.content]), BoosterAccepted(n))
      else
        StepResult(s, DuplicateRejected)
    else if s.validCount < Limit then
      var n := s.validCount + 1;
      StepResult(LedgerState(n, s.recorded + {m.content}, s.users[m.user := m.content]), Accepted(n))
    else
      StepResult(s, LimitReached)
  }

  /** Every taken address passed the address check. */
  lemma RecordedAreValid(s: LedgerState)
    requires s.Valid()
    ensures forall a | a in s.recorded :: IsValidSolanaAddress(a)
  {
    forall a | a in s.recorded ensures IsValidSolanaAddress(a) {
      var u :| u in s.users && s.users[u] == a;
    }
  }

  /** Every submission keeps the ledger's invariant. */
  lemma StepPreservesValid(s: LedgerState, m: Submission)
    requires s.Valid()
    ensures Step(s, m).next.Valid()
  {
    var r := Step(s, m);
    if r.outcome.IsAcceptance() {
      var users := r.next.users;
      forall a | a in r.next.recorded ensures exists u | u in users :: users[u] == a {
        if a == m.content {
          assert users[m.user] == a;
        } else {
          var u :| u in s.users && s.users[u] == a;
          assert u in users && users[u] == a;
        }
      }
    }
  }

  /** The outcomes of a sequence of submissions handled one after another. */
  datatype Trace = Trace(final: LedgerState, outcomes: seq<Outcome>)

  function Run(s: LedgerState, ms: seq<Submission>): (t: Trace)
    ensures |t.outcomes| == |ms|
    decreases |ms|
  {
    if ms == [] then Trace(s, [])
    else
      var r := Step(s, ms[0]);
      var rest := Run(r.next, ms[1..]);
      Trace(rest.final, [r.outcome] + rest.outcomes)
  }

  /** The numbers handed to accepted submissions, in order. */
  function Issued(outcomes: seq<Outcome>): (ns: seq<nat>)
    ensures |ns| <= |outcomes|
  {
    if outcomes == [] then []
    else if outcomes[0].IsAcceptance() then [outcomes[0].number] + Issued(outcomes[1..])
    else Issued(outcomes[1..])
  }

  /** The invariant holds after any sequence of submissions. */
  lemma {:induction false} RunPreservesValid(s: LedgerState, ms: seq<Submission>)
    requires s.Valid()
    ensures Run(s, ms).final.Valid()
    decreases |ms|
  {
    if ms != [] {
      StepPreservesValid(s, ms[0]);
      RunPreservesValid(Step(s, ms[0]).next, ms[1..]);
    }
  }

  /** Nothing is ever taken back: registrations are never overwritten or
      removed, taken addresses stay taken, and the counter never goes down. */
  lemma {:induction false} RunOnlyGrows(s: LedgerState, ms: seq<Submission>)
    ensures var f := Run(s, ms).final;
      && s.validCount <= f.validCount
      && s.recorded <= f.recorded
      && forall u | u in s.users :: u in f.users && f.users[u] == s.users[u]
    decreases |ms|
  {
    if ms != [] {
      RunOnlyGrows(Step(s, ms[0]).next, ms[1..]);
    }
  }

  /** The numbers issued are the counter's next values, consecutively and in
      call order, and the counter ends at the last one issued. */
  lemma {:induction false} RunIssuesConsecutiveNumbers(s: LedgerState, ms: seq<Submission>)
    ensures var t := Run(s, ms);
      var ns := Issued(t.outcomes);
      && t.final.validCount == s.validCount + |ns|
      && forall k | 0 <= k < |ns| :: ns[k] == s.validCount + 1 + k
    decreases |ms|
  {
    if ms != [] {
      var r := Step(s, ms[0]);
      var rest := Run(r.next, ms[1..]);
      RunIssuesConsecutiveNumbers(r.next, ms[1..]);
      assert ([r.outcome] + rest.outcomes)[1..] == rest.outcomes;
    }
  }

  /** From process start, the numbers issued are exactly 1, 2, ..., N. */
  lemma NumbersFromStart(ms: seq<Submission>)
    ensures var t := Run(Init(), ms);
      var ns := Issued(t.outcomes);
      && t.final.validCount == |ns|
      && forall k | 0 <= k < |ns| :: ns[k] == k + 1
  {
    RunIssuesConsecutiveNumbers(Init(), ms);
  }

  /** A user who already holds a registration is answered with the stored
      address, whatever the text, at every later point of the run. */
  lemma {:induction false} RunRepeatSubmitter(s: LedgerState, ms: seq<Submission>, j: nat)
    requires j < |ms| && ms[j].user in s.users
    ensures Run(s, ms).outcomes[j] == AlreadySubmitted(s.users[ms[j].user])
    decreases |ms|
  {
    var r := Step(s, ms[0]);
    if j > 0 {
      RunRepeatSubmitter(r.next, ms[1..], j - 1);
    }
  }

  /** At most one submission per user is ever accepted: once accepted, every
      later submission by the same user reports the accepted address. */
  lemma {:induction false} RunAcceptsOncePerUser(s: LedgerState, ms: seq<Submission>, i: nat, j: nat)
    requires i < j < |ms| && ms[i].user == ms[j].user
    requires Run(s, ms).outcomes[i].IsAcceptance()
    ensures Run(s, ms).outcomes[j] == AlreadySubmitted(ms[i].content)
    decreases |ms|
  {
    var r := Step(s, ms[0]);
    if i == 0 {
      RunRepeatSubmitter(r.next, ms[1..], j - 1);
    } else {
      RunAcceptsOncePerUser(r.next, ms[1..], i - 1, j - 1);
    }
  }

  /** An address that is already taken is never accepted again for a user who
      is not both boosting and on the server. */
  lemma {:induction false} RunTakenStaysTaken(s: LedgerState, ms: seq<Submission>, j: nat)
    requires s.Valid()
    requires j < |ms| && ms[j].content in s.recorded
    requires !(ms[j].boosted && ms[j].memberOnServer)
    ensures Run(s, ms).outcomes[j].DuplicateRejected? || Run(s, ms).outcomes[j].AlreadySubmitted?
    decreases |ms|
  {
    var r := Step(s, ms[0]);
    if j == 0 {
      RecordedAreValid(s);
    } else {
      StepPreservesValid(s, ms[0]);
      RunTakenStaysTaken(r.next, ms[1..], j - 1);
    }
  }

  /** Once a fresh registration has taken an address, a later submission of
      the same address by someone without the override is never accepted. */
  lemma {:induction false} RunFreshAddressIsExclusive(s: LedgerState, ms: seq<Submission>, i: nat, j: nat)
    requires s.Valid()
    requires i < j < |ms| && ms[j].content == ms[i].content
    requires Run(s, ms).outcomes[i].Accepted?
    requires !(ms[j].boosted && ms[j].memberOnServer)
    ensures !Run(s, ms).outcomes[j].IsAcceptance()
    decreases |ms|
  {
    var r := Step(s, ms[0]);
    StepPreservesValid(s, ms[0]);
    if i == 0 {
      RunTakenStaysTaken(r.next, ms[1..], j - 1);
    } else {
      RunFreshAddressIsExclusive(r.next, ms[1..], i - 1, j - 1);
    }
  }

  /** The cap on fresh addresses reads the shared counter, which booster
      acceptances also advance: once the counter is at the limit a fresh
      address is refused however few addresses the fresh path has taken,
      while the override still accepts. */
  lemma LimitCountsBoosterAcceptances(s: LedgerState, novel: Submission, taken: Submission)
    requires s.Valid() && s.validCount >= Limit
    requires novel.user !in s.users && IsValidSolanaAddress(novel.content) && novel.content !in s.recorded
    requires taken.user !in s.users && taken.content in s.recorded && taken.boosted && taken.memberOnServer
    ensures Step(s, novel).outcome == LimitReached
    ensures Step(s, taken).outcome == BoosterAccepted(s.validCount + 1)
  {
    RecordedAreValid(s);
  }

  /** A worked run: a fresh acceptance, a refused duplicate, a second fresh
      acceptance, a repeat submitter, and a booster reusing a taken address. */
  lemma ExampleRun(a: Address, b: Address)
    requires IsValidSolanaAddress(a) && IsValidSolanaAddress(b) && a != b
    ensures var t := Run(Init(), [
        Submission(1, a, false, false),
        Submission(2, a, false, true),
        Submission(2, b, false, false),
        Submission(1, "anything", false, false),
        Submission(3, a, true, true)]);
      && t.outcomes == [Accepted(1), DuplicateRejected, Accepted(2), AlreadySubmitted(a), BoosterAccepted(3)]
      && t.final.recorded == {a, b}
      && t.final.users == map[1 := a, 2 := b, 3 := a]
  {
    var m1, m2, m3 := Submission(1, a, false, false), Submission(2, a, false, true), Submission(2, b, false, false);
    var m4, m5 := Submission(1, "anything", false, false), Submission(3, a, true, true);
    var s1 := LedgerState(1, {a}, map[1 := a]);
    var s3 := LedgerState(2, {a, b}, map[1 := a, 2 := b]);
    var s5 := LedgerState(3, {a, b}, map[1 := a, 2 := b, 3 := a]);
    assert Step(Init(), m1) == StepResult(s1, Accepted(1));
    assert Step(s1, m2) == StepResult(s1, DuplicateRejected);
    assert Step(s1, m3) == StepResult(s3, Accepted(2));
    assert Step(s3, m4) == StepResult(s3, AlreadySubmitted(a));
    assert Step(s3, m5) == StepResult(s5, BoosterAccepted(3));
    assert Run(s5, []) == Trace(s5, []);
    assert Run(s3, [m5]) == Trace(s5, [BoosterAccepted(3)]);
    assert [m4, m5][1..] == [m5];
    assert Run(s3, [m4, m5]) == Trace(s5, [AlreadySubmitted(a), BoosterAccepted(3)]);
    assert [m3, m4, m5][1..] == [m4, m5];
    assert Run(s1, [m3, m4, m5]) == Trace(s5, [Accepted(2), AlreadySubmitted(a), BoosterAccepted(3)]);
    assert [m2, m3, m4, m5][1..] == [m3, m4, m5];
    assert Run(s1, [m2, m3, m4, m5]) == Trace(s5, [DuplicateRejected, Accepted(2), AlreadySubmitted(a), BoosterAccepted(3)]);
    assert [m1, m2, m3, m4, m5][1..] == [m2, m3, m4, m5];
  }

  /** The ledger object the message handler updates in place. */
  class Ledger {
    var validCount: nat
    var recorded: set<Address>
    var users: map<UserId, Address>

    ghost function State(): LedgerState
      reads this
    {
      LedgerState(validCount, recorded, users)
    }

    ghost predicate Valid()
      reads this
    {
      State().Valid()
    }

    constructor ()
      ensures Valid()
      ensures State() == Init()
    {
      validCount := 0;
      recorded := {};
      users := map[];
    }

    /** Decide one trimmed direct-message text and update the ledger. */
    method Submit(user: UserId, content: Address, boosted: bool, memberOnServer: bool) returns (outcome: Outcome)
      requires Valid()
      modifies this
      ensures Valid()
      ensures StepResult(State(), outcome) == Step(old(State()), Submission(user, content, boosted, memberOnServer))
      // already submitted: the stored address is reported, whatever the text
      ensures user in old(users) ==>
        outcome == AlreadySubmitted(old(users)[user]) && unchanged(this)
      ensures user !in old(users) && !IsValidSolanaAddress(content) ==>
        outcome == InvalidFormat && unchanged(this)
      ensures user !in old(users) && IsValidSolanaAddress(content) && content in old(recorded)
              && !(boosted && memberOnServer) ==>
        outcome == DuplicateRejected && unchanged(this)
      // the override: no cap, the taken set is left as it is
      ensures user !in old(users) && IsValidSolanaAddress(content) && content in old(recorded)
              && boosted && memberOnServer ==>
        && validCount == old(validCount) + 1
        && outcome == BoosterAccepted(validCount)
        && users == old(users)[user := content]
        && recorded == old(recorded)
      ensures user !in old(users) && IsValidSolanaAddress(content) && content !in old(recorded)
              && old(validCount) < Limit ==>
        && validCount == old(validCount) + 1
        && outcome == Accepted(validCount)
        && users == old(users)[user := content]
        && recorded == old(recorded) + {content}
      ensures user !in old(users) && IsValidSolanaAddress(content) && content !in old(recorded)
              && old(validCount) >= Limit ==>
        outcome == LimitReached && unchanged(this)
    {
      StepPreservesValid(State(), Submission(user, content, boosted, memberOnServer));
      if user in users {
        outcome := AlreadySubmitted(users[user]);
        return;
      }
      if IsValidSolanaAddress(content) {
        if content in recorded {
          if boosted && memberOnServer {
            validCount := validCount + 1;
            users := users[user := content];
            outcome := BoosterAccepted(validCount);
          } else {
            outcome := DuplicateRejected;
          }
        } else if validCount < Limit {
          validCount := validCount + 1;
          recorded := recorded + {content};
          users := users[user := content];
          outcome := Accepted(validCount);
        } else {
          outcome := LimitReached;
        }
      } else {
        outcome := InvalidFormat;
      }
    }

    /** The message handler's entry: only direct messages from users who are
        not bots reach the ledger; anything else is ignored. */
    method OnMessage(isDirect: bool, fromBot: bool, user: UserId, content: Address,
                     boosted: bool, memberOnServer: bool) returns (reply: Option<Outcome>)
      requires Valid()
      modifies this
      ensures Valid()
      ensures !(isDirect && !fromBot) ==> reply == None && unchanged(this)
      ensures isDirect && !fromBot ==>
        reply.Some? &&
        StepResult(State(), reply.value) == Step(old(State()), Submission(user, content, boosted, memberOnServer))
    {
      if isDirect && !fromBot {
        var outcome := Submit(user, content, boosted, memberOnServer);
        reply := Some(outcome);
      } else {
        reply := None;
      }
    }
  }
}
