/** Runs of the password-change commands on which the conditional promises of `PasswordProofs` fail. */
module PasswordExamples {
  import opened Options
  import opened Strings
  import opened PasswordRequests
  import opened PasswordProofs

  const EMPLOYEE := User("e1", None, "e@x", Employee, Some("b1"))
  const ADMIN := User("a1", None, "a@x", Admin, Some("b1"))

  function Ask(id: string): Call { Call(Create(EMPLOYEE, "forgotten", id, 1), 1, "l1", true, map[]) }
  function Decide(id: string, approve: bool): Call { Call(Review(ADMIN, id, approve, None), 2, "l2", true, map[]) }

  /** A request of the employee, still undecided. */
  predicate Undecided(m: Records, id: string) {
    && id in m && m[id].id == id && m[id].requesterUserId == "e1" && m[id].status.Pending? && !m[id].isActivated
    && m[id].targetRole == "admin" && m[id].requesterBranchId == Some("b1")
  }

  /** What a logged request or decision does. */
  lemma LoggedStep(o: Office, x: Call)
    requires Faithful(o) && |o.log| <= LOG_LIMIT && Allowed(o, x) && Admits(o, x)
    requires x.stored && x.elsewhere == map[] && !x.command.Activate?
    ensures var o' := Step(o, x);
      && Faithful(o') && |o'.log| == |o.log| + 1 && o'.machine == Drive(o.machine, x.command, x.now)
      && o'.passwordsSet == o.passwordsSet && o'.passwords == o.passwords
  {
    StepFaithful(o, x);
    assert o.passwords + x.elsewhere == o.passwords;
  }

  lemma AskAdmitted(o: Office, id: string)
    requires Faithful(o) && |o.log| <= LOG_LIMIT && Clean(id) && id !in o.machine && !HasPending(o.machine, "e1")
    ensures Allowed(o, Ask(id)) && Admits(o, Ask(id))
    ensures Drive(o.machine, Ask(id).command, 1) == o.machine[id := NewRecord(EMPLOYEE, id, Admin, "forgotten", 1)]
  {
    CleanIsTrimmed("forgotten");
  }

  lemma Asked(o: Office, id: string)
    requires Faithful(o) && |o.log| <= LOG_LIMIT && Clean(id) && id !in o.machine && !HasPending(o.machine, "e1")
    ensures Allowed(o, Ask(id)) && Admits(o, Ask(id))
    ensures var o' := Step(o, Ask(id));
      && Faithful(o') && |o'.log| == |o.log| + 1 && o'.passwordsSet == o.passwordsSet && o'.passwords == o.passwords
      && Undecided(o'.machine, id) && o'.machine == o.machine[id := o'.machine[id]]
  {
    AskAdmitted(o, id);
    LoggedStep(o, Ask(id));
  }

  lemma Decided(o: Office, id: string, approve: bool)
    requires Faithful(o) && |o.log| <= LOG_LIMIT && Undecided(o.machine, id)
    ensures Admits(o, Decide(id, approve))
    ensures var o' := Step(o, Decide(id, approve));
      && Faithful(o') && |o'.log| == |o.log| + 1 && o'.passwordsSet == o.passwordsSet && o'.passwords == o.passwords
      && id in o'.machine && o'.machine == o.machine[id := o'.machine[id]]
      && o'.machine[id].status == (if approve then Approved else Rejected)
      && o'.machine[id].requesterUserId == "e1" && !o'.machine[id].isActivated
  {
    LoggedStep(o, Decide(id, approve));
  }

  /* ---------- two passwords on one approval ---------- */

  /** The employee sets `new`, and the log loses it. */
  function Use(old': string, new': string, elsewhere: map<string, string>): Call {
    Call(Activate(EMPLOYEE, "r1", old', new', true), 3, "l3", false, elsewhere)
  }

  lemma Used(o: Office, old': string, new': string, elsewhere: map<string, string>)
    requires var m := Replay(Loaded(o.log));
      "r1" in m && m["r1"].requesterUserId == "e1" && m["r1"].status.Approved? && !m["r1"].isActivated
    requires Clean(old') && Clean(new') && old' != new'
    requires var p := o.passwords + elsewhere; "e1" in p && p["e1"] == old'
    ensures var o' := Step(o, Use(old', new', elsewhere));
      && o'.log == o.log && o'.machine == o.machine && o'.passwordsSet == o.passwordsSet + ["r1"]
      && "e1" in o'.passwords && o'.passwords["e1"] == new'
  {
    CleanIsTrimmed(old');
    CleanIsTrimmed(new');
  }

  const FIRST := "alpha"
  const SECOND := "beta"
  const THIRD := "gamma"

  /** An approved request, nothing activated. */
  lemma ApprovedOnce() returns (o: Office)
    ensures Reached(o) && Faithful(o) && |o.log| == 2 && o.passwordsSet == [] && o.passwords == map[]
    ensures "r1" in o.machine && o.machine["r1"].requesterUserId == "e1"
    ensures o.machine["r1"].status.Approved? && !o.machine["r1"].isActivated
  {
    ReachFirst();
    Asked(EMPTY_OFFICE, "r1");
    ReachStep(EMPTY_OFFICE, Ask("r1"));
    o := Step(EMPTY_OFFICE, Ask("r1"));
    Decided(o, "r1", true);
    ReachStep(o, Decide("r1", true));
    o := Step(o, Decide("r1", true));
  }

  /** Ask, approve, activate, activate again with the password just set: the log loses both activations,
      and one approval has set two passwords. */
  lemma TwoPasswordsOneApproval()
    ensures exists o, x, y ::
              && Reached(o) && Allowed(o, x) && Allowed(Step(o, x), y)
              && Count(Step(Step(o, x), y).passwordsSet, "r1") == 2 && "e1" in Step(Step(o, x), y).passwords
              && Step(Step(o, x), y).passwords["e1"] == THIRD
  {
    var o := ApprovedOnce();
    var x, y := Use(FIRST, SECOND, map["e1" := FIRST]), Use(SECOND, THIRD, map[]);
    assert FIRST[0] != SECOND[0] && SECOND[0] != THIRD[0];
    Used(o, FIRST, SECOND, map["e1" := FIRST]);
    Used(Step(o, x), SECOND, THIRD, map[]);
    CountTwo(["r1", "r1"], "r1");
    assert Step(Step(o, x), y).passwordsSet == ["r1", "r1"];
  }

  lemma CountTwo(ids: seq<string>, id: string)
    requires ids == [id, id]
    ensures Count(ids, id) == 2
  {
    assert ids[..1] == [id] && [id][..0] == [];
    assert Count([id], id) == 1;
  }

  /* ---------- more rows than a command reads ---------- */

  function Id(k: nat): string { seq(k + 1, i requires 0 <= i => 'r') }

  /** `n` requests, each rejected before the next is made. */
  function Rejections(n: nat): seq<Call> {
    if n == 0 then [] else Rejections(n - 1) + [Ask(Id(n - 1)), Decide(Id(n - 1), false)]
  }

  predicate AllRejected(m: Records, n: nat) {
    forall id | id in m :: |id| <= n && m[id].status.Rejected?
  }

  lemma TwoMoreCalls(trace: seq<Call>, x: Call, y: Call)
    requires AllowedRun(trace) && Allowed(Run(trace), x) && Allowed(Step(Run(trace), x), y)
    ensures AllowedRun(trace + [x, y]) && Run(trace + [x, y]) == Step(Step(Run(trace), x), y)
  {
    assert (trace + [x])[..|trace|] == trace && (trace + [x, y])[..|trace| + 1] == trace + [x];
    LastCall(trace + [x]);
    LastCall(trace + [x, y]);
  }

  /** One request more can be made, its row is stored, and it can be rejected. */
  lemma Request(o: Office, k: nat)
    requires Faithful(o) && |o.log| <= LOG_LIMIT && AllRejected(o.machine, k)
    ensures Allowed(o, Ask(Id(k))) && |Step(o, Ask(Id(k))).log| == |o.log| + 1 && Faithful(Step(o, Ask(Id(k))))
    ensures var m := Step(o, Ask(Id(k))).machine; Undecided(m, Id(k)) && m == o.machine[Id(k) := m[Id(k)]]
  {
    assert |Id(k)| == k + 1 && Clean(Id(k));
    Asked(o, Id(k));
  }

  lemma Rejection(o: Office, k: nat)
    requires Faithful(o) && |o.log| + 2 <= LOG_LIMIT && AllRejected(o.machine, k)
    ensures var (x, y) := (Ask(Id(k)), Decide(Id(k), false));
      && Allowed(o, x) && Allowed(Step(o, x), y) && |Step(Step(o, x), y).log| == |o.log| + 2
      && AllRejected(Step(Step(o, x), y).machine, k + 1)
  {
    Request(o, k);
    var o1 := Step(o, Ask(Id(k)));
    Decided(o1, Id(k), false);
    RejectedToo(o.machine, o1.machine, Step(o1, Decide(Id(k), false)).machine, k);
  }

  lemma RejectedToo(m: Records, m1: Records, m2: Records, k: nat)
    requires AllRejected(m, k) && Id(k) in m1 && Id(k) in m2
    requires m1 == m[Id(k) := m1[Id(k)]] && m2 == m1[Id(k) := m2[Id(k)]] && m2[Id(k)].status.Rejected?
    ensures AllRejected(m2, k + 1)
  {
  }

  predicate Logged(trace: seq<Call>, n: nat) {
    AllowedRun(trace) && |Run(trace).log| == 2 * n && AllRejected(Run(trace).machine, n)
  }

  lemma OneMoreRejection(trace: seq<Call>, k: nat)
    requires Logged(trace, k) && 2 * k + 2 <= LOG_LIMIT
    ensures Logged(trace + [Ask(Id(k)), Decide(Id(k), false)], k + 1)
  {
    assert Faithful(Run(trace)) by { ReachRun(trace); }
    Rejection(Run(trace), k);
    TwoMoreCalls(trace, Ask(Id(k)), Decide(Id(k), false));
  }

  lemma {:induction false} RejectionsLogged(n: nat)
    requires 2 * n <= LOG_LIMIT
    ensures Logged(Rejections(n), n)
  {
    if n > 0 {
      RejectionsLogged(n - 1);
      OneMoreRejection(Rejections(n - 1), n - 1);
    }
  }

  lemma ReachRun(trace: seq<Call>)
    requires AllowedRun(trace)
    ensures Reached(Run(trace)) && Faithful(Run(trace))
    ensures |Run(trace).log| > LOG_LIMIT ==> Replay(Loaded(Run(trace).log)) != Run(trace).machine
  {
    PasswordProofs.RunKeepsInv(trace);
    RebuiltIsMachineExactly(trace);
  }

  /** One request more than fits: the last row is not read back. */
  lemma OneRequestTooMany(n: nat)
    requires 2 * n == LOG_LIMIT
    ensures exists o :: Reached(o) && Replay(Loaded(o.log)) != o.machine
  {
    RejectionsLogged(n);
    var trace, x := Rejections(n), Ask(Id(n));
    ReachRun(trace);
    Request(Run(trace), n);
    assert (trace + [x])[..|trace|] == trace;
    LastCall(trace + [x]);
    ReachRun(trace + [x]);
  }

  /** A run of 5001 rows whose log does not rebuild the state machine. */
  lemma LongLogIsNotRebuilt()
    ensures exists o :: Reached(o) && Replay(Loaded(o.log)) != o.machine
  {
    OneRequestTooMany(2500);
  }
}
