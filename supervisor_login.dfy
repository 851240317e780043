/** The supervisor sign-in screen and its lockout: five wrong attempts lock the form for thirty seconds,
    counted down by a one-second timer. */
module SupervisorLogin {
  import opened Types
  import opened Seqs

  const MaxAttempts: nat := 5
  /** The lockout length in milliseconds. */
  const LockoutTime: nat := 30 * 1000
  /** The timer period in milliseconds. */
  const TickLength: nat := 1000

  /** A supervisor credential; the list itself is configuration passed in by the caller. */
  datatype Supervisor = Supervisor(name: string, password: string)

  function HasName(name: string): Supervisor -> bool
  {
    (s: Supervisor) => s.name == name
  }

  /** `SUPERVISORS.find(s => s.name === selected)` followed by the password comparison. */
  function CredentialsMatch(supervisors: seq<Supervisor>, name: string, password: string): (ok: bool)
    ensures ok ==> exists s :: s in supervisors && s.name == name && s.password == password
    ensures (forall s :: s in supervisors ==> s.name != name) ==> !ok
    ensures ok <==> FirstIndex(HasName(name), supervisors) < |supervisors|
                    && supervisors[FirstIndex(HasName(name), supervisors)].password == password
  {
    var k := FirstIndex(HasName(name), supervisors);
    k < |supervisors| && supervisors[k].password == password
  }

  // ---------------------------------------------------------------------------------------------
  // The lockout machine

  /** The three pieces of component state the lockout uses; `timeLeft` is in milliseconds. */
  datatype LockState = LockState(attempts: nat, isLocked: bool, timeLeft: int)

  const Initial: LockState := LockState(0, false, 0)

  /** The reachable states: unlocked with fewer than five failures and no time left, or locked after the fifth
      failure with a whole number of seconds, at most thirty, still to run. */
  predicate ValidLock(s: LockState)
  {
    if s.isLocked then
      s.attempts == MaxAttempts && 0 < s.timeLeft <= LockoutTime && s.timeLeft % TickLength == 0
    else
      s.attempts < MaxAttempts && s.timeLeft == 0
  }

  /** The state after a submit: ignored while locked; a success leaves the counters alone; a failure counts,
      and the fifth one locks for the full lockout. */
  function SubmitStep(s: LockState, ok: bool): (r: LockState)
    ensures s.isLocked ==> r == s
    ensures !s.isLocked && ok ==> r == s
    ensures !s.isLocked && !ok ==> r.attempts == s.attempts + 1
    ensures !s.isLocked && !ok ==> (r.isLocked <==> s.attempts + 1 >= MaxAttempts)
    ensures !s.isLocked && !ok && !r.isLocked ==> 1 <= MaxAttempts - r.attempts < MaxAttempts
    ensures ValidLock(s) ==> ValidLock(r)
  {
    if s.isLocked || ok then s
    else if s.attempts + 1 >= MaxAttempts then LockState(s.attempts + 1, true, LockoutTime)
    else s.(attempts := s.attempts + 1)
  }

  /** The effect that watches `isLocked` and `timeLeft`: once no time is left the form unlocks and the
      failure count is cleared. */
  function Settle(s: LockState): LockState
  {
    if s.isLocked && s.timeLeft > 0 then s
    else if s.timeLeft <= 0 then s.(isLocked := false, attempts := 0)
    else s
  }

  /** One second of the timer: while locked with time left, one second comes off and the effect settles;
      otherwise no timer runs and nothing changes. */
  function TickStep(s: LockState): (r: LockState)
    ensures !s.isLocked ==> r == s
    ensures ValidLock(s) ==> ValidLock(r)
    ensures ValidLock(s) && s.isLocked ==> r.timeLeft == s.timeLeft - TickLength
    ensures ValidLock(s) && s.isLocked ==> (r.isLocked <==> s.timeLeft > TickLength)
    ensures ValidLock(s) && s.isLocked && !r.isLocked ==> r.attempts == 0
  {
    if s.isLocked && s.timeLeft > 0 then Settle(s.(timeLeft := s.timeLeft - TickLength)) else s
  }

  /** `n` seconds of the timer. */
  function Ticks(s: LockState, n: nat): LockState
    decreases n
  {
    if n == 0 then s else Ticks(TickStep(s), n - 1)
  }

  /** Failed submits in a row. */
  function Failures(s: LockState, n: nat): LockState
    decreases n
  {
    if n == 0 then s else Failures(SubmitStep(s, false), n - 1)
  }

  /** From a fresh form, fewer than five failures leave it open with that many counted, and the fifth locks it
      for thirty seconds. */
  lemma {:induction false} FailuresCount(n: nat)
    requires n <= MaxAttempts
    ensures var s := Failures(Initial, n);
      s.attempts == n && (s.isLocked <==> n == MaxAttempts)
      && (n == MaxAttempts ==> s.timeLeft == LockoutTime)
  {
    FailuresFrom(Initial, n);
  }

  lemma {:induction false} FailuresFrom(s: LockState, n: nat)
    requires !s.isLocked && s.timeLeft == 0 && s.attempts < MaxAttempts && s.attempts + n <= MaxAttempts
    ensures var r := Failures(s, n);
      r.attempts == s.attempts + n && (r.isLocked <==> s.attempts + n == MaxAttempts)
      && (s.attempts + n == MaxAttempts && n > 0 ==> r.timeLeft == LockoutTime)
      && (!r.isLocked ==> r.timeLeft == 0)
    decreases n
  {
    if n > 0 {
      var t := SubmitStep(s, false);
      if s.attempts + 1 == MaxAttempts {
        assert n == 1;
        assert Failures(t, 0) == t;
      } else {
        FailuresFrom(t, n - 1);
      }
    }
  }

  /** While locked every submit is ignored, whatever the credentials. */
  lemma LockedIgnoresSubmit(s: LockState, ok: bool)
    requires s.isLocked
    ensures SubmitStep(s, ok) == s
  {
  }

  /** A locked form reopens, with the failure count cleared, exactly when the remaining seconds have run:
      one tick earlier it is still locked. */
  lemma {:induction false} CountdownUnlocks(s: LockState)
    requires ValidLock(s) && s.isLocked
    ensures Ticks(s, s.timeLeft / TickLength) == LockState(0, false, 0)
    ensures Ticks(s, s.timeLeft / TickLength - 1).isLocked
    decreases s.timeLeft
  {
    var n := s.timeLeft / TickLength;
    if n == 1 {
      assert s.timeLeft == TickLength;
      assert Ticks(TickStep(s), 0) == TickStep(s);
      assert Ticks(s, 0) == s;
    } else {
      var t := TickStep(s);
      assert t.timeLeft / TickLength == n - 1;
      CountdownUnlocks(t);
    }
  }

  /** The lockout lasts thirty ticks from the failure that triggers it. */
  lemma LockoutLastsThirtyTicks()
    ensures Ticks(Failures(Initial, MaxAttempts), 30) == Initial
    ensures Ticks(Failures(Initial, MaxAttempts), 29).isLocked
  {
    FailuresCount(MaxAttempts);
    CountdownUnlocks(Failures(Initial, MaxAttempts));
  }

  /** The seconds shown beside the lock message: `Math.ceil(timeLeft / 1000)`. */
  function DisplayedSeconds(timeLeft: nat): (secs: nat)
    ensures secs * TickLength >= timeLeft
    ensures secs > 0 ==> (secs - 1) * TickLength < timeLeft
  {
    (timeLeft + TickLength - 1) / TickLength
  }

  // ---------------------------------------------------------------------------------------------
  // Messages

  function DigitChar(d: nat): char
    requires d < 10
  {
    "0123456789"[d]
  }

  /** A number written in decimal, as a template literal writes it. */
  function NatToString(n: nat): (r: string)
    ensures |r| >= 1
  {
    if n < 10 then [DigitChar(n)] else NatToString(n / 10) + [DigitChar(n % 10)]
  }

  /** "Locked temporarily after repeated wrong attempts. Please wait 30 seconds." */
  function LockedText(): string
  {
    "تم قفل النظام مؤقتاً بسبب محاولات خاطئة متكررة. يرجى الانتظار " + NatToString(LockoutTime / 1000) + " ثانية."
  }

  /** "Wrong credentials. Attempts left: n." */
  function RemainingText(left: nat): string
  {
    "بيانات الدخول غير صحيحة. المحاولات المتبقية: " + NatToString(left)
  }

  /** The form: the lockout state and the error line. */
  class LoginForm {
    var attempts: nat
    var isLocked: bool
    var timeLeft: int
    var error: string

    function State(): LockState
      reads this
    {
      LockState(attempts, isLocked, timeLeft)
    }

    predicate Valid()
      reads this
    {
      ValidLock(State())
    }

    constructor ()
      ensures State() == Initial && error == "" && Valid()
    {
      attempts, isLocked, timeLeft, error := 0, false, 0, "";
    }

    /** `handleSubmit`: returns whether `onLogin` is called. */
    method Submit(supervisors: seq<Supervisor>, name: string, password: string) returns (loggedIn: bool)
      modifies this
      ensures loggedIn <==> !old(isLocked) && CredentialsMatch(supervisors, name, password)
      ensures State() == SubmitStep(old(State()), CredentialsMatch(supervisors, name, password))
      ensures old(isLocked) ==> error == old(error)
      ensures !old(isLocked) && loggedIn ==> error == ""
      ensures !old(isLocked) && !loggedIn && isLocked ==> error == LockedText()
      ensures !old(isLocked) && !loggedIn && !isLocked ==> error == RemainingText(MaxAttempts - attempts)
      ensures old(Valid()) ==> Valid()
    {
      if isLocked {
        return false;
      }
      error := "";
      loggedIn := CredentialsMatch(supervisors, name, password);
      if !loggedIn {
        var newAttempts := attempts + 1;
        attempts := newAttempts;
        if newAttempts >= MaxAttempts {
          isLocked := true;
          timeLeft := LockoutTime;
          error := LockedText();
        } else {
          error := RemainingText(MaxAttempts - newAttempts);
        }
      }
    }

    /** One firing of the one-second interval, followed by the effect it triggers. The error line is not
        cleared on unlock. */
    method Tick()
      modifies this
      ensures State() == TickStep(old(State()))
      ensures error == old(error)
      ensures old(Valid()) ==> Valid()
    {
      if isLocked && timeLeft > 0 {
        timeLeft := timeLeft - TickLength;
        if timeLeft <= 0 {
          isLocked := false;
          attempts := 0;
        }
      }
    }
  }
}
