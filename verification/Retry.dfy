/** Retry policies: the attempt budget of a task and the delay before its next attempt.
    Delays are reals; the number behind jitter is the parameter `draw`, clamped to what the generator may return. */
module Retry {
  import opened Wrappers

  const MAX_DELAY_SECONDS: real := 86400.0
  const MAX_EXPONENT: nat := 64

  datatype RetryPolicy =
    | NoRetry
    | FixedDelay(delay: real, attempts: int)
    | ExponentialBackoff(base: real, factor: real, attempts: int, maxDelay: real, jitter: bool)
  {
    /** What construction demands; anything else raises. */
    predicate WellFormed() {
      match this
      case NoRetry => true
      case FixedDelay(d, n) => n >= 1 && d >= 0.0
      case ExponentialBackoff(b, f, n, m, _) => n >= 1 && b >= 0.0 && f >= 1.0 && m > 0.0
    }

    function MaxAttempts(): int {
      match this
      case NoRetry => 1
      case FixedDelay(_, n) => n
      case ExponentialBackoff(_, _, n, _, _) => n
    }

    predicate ShouldRetry(attempt: int) {
      attempt < MaxAttempts()
    }

    /** NoRetry never gets here: it has no second attempt. */
    function ComputeDelay(attempt: int, draw: real): real
      requires attempt >= 1
    {
      match this
      case NoRetry => 0.0
      case FixedDelay(d, _) => d
      case ExponentialBackoff(_, _, _, _, j) => if j then Uniform(RawDelay(attempt), draw) else RawDelay(attempt)
    }

    /** The exponential delay before jitter, its exponent capped before the power is taken. */
    function RawDelay(attempt: int): real
      requires ExponentialBackoff? && attempt >= 1
    {
      Min(Geometric(base, factor, CappedExponent(attempt)), maxDelay)
    }
  }

  /** `uniform(0, hi)`: any value of the interval, depending on `draw` alone. */
  function Uniform(hi: real, draw: real): real {
    Min(Max(0.0, draw), hi)
  }

  function CappedExponent(attempt: int): nat
    requires attempt >= 1
  {
    if attempt - 1 < MAX_EXPONENT then attempt - 1 else MAX_EXPONENT
  }

  /** `base * factor ** n`, over the reals. */
  function Geometric(base: real, factor: real, n: nat): real {
    if n == 0 then base else factor * Geometric(base, factor, n - 1)
  }

  datatype NextDelay = AttemptNotPositive | Exhausted | After(seconds: real)

  function NextDelayOf(policy: RetryPolicy, attempt: int, draw: real): NextDelay {
    if attempt < 1 then AttemptNotPositive
    else if !policy.ShouldRetry(attempt) then Exhausted
    else After(Min(Max(0.0, policy.ComputeDelay(attempt, draw)), MAX_DELAY_SECONDS))
  }

  lemma StepUp(g: real, factor: real)
    requires g >= 0.0 && factor >= 1.0
    ensures g <= factor * g
    ensures g > 0.0 && factor > 1.0 ==> g < factor * g
    ensures g == 0.0 || factor == 1.0 ==> factor * g == g
  {
    var e := factor - 1.0;
    assert factor * g == g + e * g;
  }

  lemma GeometricStep(base: real, factor: real, n: nat)
    requires factor >= 1.0 && Geometric(base, factor, n) >= 0.0
    ensures Geometric(base, factor, n) <= Geometric(base, factor, n + 1)
    ensures Geometric(base, factor, n) > 0.0 && factor > 1.0 ==>
            Geometric(base, factor, n) < Geometric(base, factor, n + 1)
    ensures Geometric(base, factor, n) == 0.0 || factor == 1.0 ==>
            Geometric(base, factor, n) == Geometric(base, factor, n + 1)
  {
    StepUp(Geometric(base, factor, n), factor);
  }

  lemma {:induction false} GeometricGrows(base: real, factor: real, m: nat, n: nat)
    requires base >= 0.0 && factor >= 1.0 && m <= n
    ensures 0.0 <= Geometric(base, factor, m) <= Geometric(base, factor, n)
    ensures base > 0.0 ==> Geometric(base, factor, m) > 0.0
    ensures base > 0.0 && factor > 1.0 && m < n ==> Geometric(base, factor, m) < Geometric(base, factor, n)
    ensures base == 0.0 || factor == 1.0 ==> Geometric(base, factor, n) == base
  {
    if m < n {
      GeometricGrows(base, factor, m, n - 1);
      GeometricStep(base, factor, n - 1);
    } else if n > 0 {
      GeometricGrows(base, factor, n - 1, n - 1);
      GeometricStep(base, factor, n - 1);
    }
  }

  lemma RawDelayGrows(policy: RetryPolicy, early: int, late: int)
    requires policy.WellFormed() && policy.ExponentialBackoff? && 1 <= early <= late
    ensures 0.0 <= policy.RawDelay(early) <= policy.RawDelay(late) <= policy.maxDelay
    ensures policy.RawDelay(early) <= Geometric(policy.base, policy.factor, early - 1)
  {
    GeometricGrows(policy.base, policy.factor, CappedExponent(early), CappedExponent(late));
    GeometricGrows(policy.base, policy.factor, CappedExponent(early), early - 1);
  }

  /** Without jitter, a later attempt never waits less than an earlier one. */
  lemma BackoffNeverShrinks(policy: RetryPolicy, early: int, late: int, draw: real, draw': real)
    requires policy.WellFormed() && 1 <= early <= late < policy.MaxAttempts()
    requires policy.ExponentialBackoff? ==> !policy.jitter
    ensures NextDelayOf(policy, early, draw).After? && NextDelayOf(policy, late, draw').After?
    ensures NextDelayOf(policy, early, draw).seconds <= NextDelayOf(policy, late, draw').seconds
  {
    if policy.ExponentialBackoff? {
      RawDelayGrows(policy, early, late);
    }
  }

  /** The three outcomes, and the bounds on every delay handed out, whatever was drawn. */
  lemma NextDelayOutcome(policy: RetryPolicy, attempt: int, draw: real)
    requires policy.WellFormed()
    ensures NextDelayOf(policy, attempt, draw).AttemptNotPositive? <==> attempt < 1
    ensures NextDelayOf(policy, attempt, draw).Exhausted? <==> attempt >= policy.MaxAttempts()
    ensures NextDelayOf(policy, attempt, draw).After? ==>
              var d := NextDelayOf(policy, attempt, draw).seconds;
              && 0.0 <= d <= MAX_DELAY_SECONDS
              && (policy.FixedDelay? ==> d <= policy.delay)
              && (policy.ExponentialBackoff? ==>
                    d <= policy.maxDelay && d <= Geometric(policy.base, policy.factor, attempt - 1))
  {
    if attempt >= 1 && policy.ExponentialBackoff? {
      RawDelayGrows(policy, attempt, attempt);
    }
  }

  /** What is handed out, to the second: nothing beyond the last attempt; a fixed delay as it is; an exponential one
      grown once per attempt made, 64 times at most, and no further than its ceiling, or with jitter what was drawn
      below that. A day is the ceiling for all. */
  lemma NextDelayExactly(policy: RetryPolicy, attempt: int, draw: real)
    requires policy.WellFormed() && attempt >= 1
    ensures NextDelayOf(policy, attempt, draw)
         == match policy
            case NoRetry => Exhausted
            case FixedDelay(d, n) => if attempt >= n then Exhausted else After(Min(d, 86400.0))
            case ExponentialBackoff(b, f, n, m, j) =>
              var full := Min(Min(Geometric(b, f, if attempt <= 64 then attempt - 1 else 64), m), 86400.0);
              if attempt >= n then Exhausted
              else if j && draw < full then After(Max(0.0, draw))
              else After(full)
  {
    if policy.ExponentialBackoff? {
      RawDelayGrows(policy, attempt, attempt);
    }
  }

  /** Capping the exponent is meant only to keep the power finite. It changes the delay before jitter, which is also the
      end of the interval that jitter draws from, unless that had already reached its ceiling, or never grows. */
  lemma ExponentCapInvisibleIff(policy: RetryPolicy, attempt: int)
    requires policy.WellFormed() && policy.ExponentialBackoff? && attempt >= 1
    ensures policy.RawDelay(attempt) == Min(Geometric(policy.base, policy.factor, attempt - 1), policy.maxDelay)
       <==> (|| attempt <= MAX_EXPONENT + 1
             || policy.base == 0.0
             || policy.factor == 1.0
             || Geometric(policy.base, policy.factor, CappedExponent(attempt)) >= policy.maxDelay)
  {
    GeometricGrows(policy.base, policy.factor, CappedExponent(attempt), attempt - 1);
    GeometricGrows(policy.base, policy.factor, CappedExponent(attempt), CappedExponent(attempt));
  }

  /** What the caller would be told if the exponent were not capped. */
  function UncappedNextDelay(policy: RetryPolicy, attempt: int, draw: real): NextDelay
    requires policy.ExponentialBackoff? && attempt >= 1
  {
    var raw := Min(Geometric(policy.base, policy.factor, attempt - 1), policy.maxDelay);
    if !policy.ShouldRetry(attempt) then Exhausted
    else After(Min(Max(0.0, if policy.jitter then Uniform(raw, draw) else raw), MAX_DELAY_SECONDS))
  }

  /** The caller is told the same, whatever is drawn, exactly when the attempts are spent, the exponent is not capped,
      the delay never grows, or it has reached its ceiling: its own, or the one for all policies. */
  lemma CallerSeesNoCapIff(policy: RetryPolicy, attempt: int)
    requires policy.WellFormed() && policy.ExponentialBackoff? && attempt >= 1
    ensures (forall draw :: NextDelayOf(policy, attempt, draw) == UncappedNextDelay(policy, attempt, draw))
       <==> (|| attempt >= policy.MaxAttempts()
             || attempt <= MAX_EXPONENT + 1
             || policy.base == 0.0
             || policy.factor == 1.0
             || Min(policy.maxDelay, MAX_DELAY_SECONDS)
                <= Geometric(policy.base, policy.factor, CappedExponent(attempt)))
  {
    var full := Min(Geometric(policy.base, policy.factor, attempt - 1), policy.maxDelay);
    RawDelayGrows(policy, attempt, attempt);
    ExponentCapInvisibleIff(policy, attempt);
    GeometricGrows(policy.base, policy.factor, CappedExponent(attempt), attempt - 1);
    assert policy.RawDelay(attempt) <= full;
    if attempt < policy.MaxAttempts() && policy.RawDelay(attempt) < Min(full, MAX_DELAY_SECONDS) {
      assert NextDelayOf(policy, attempt, full) != UncappedNextDelay(policy, attempt, full);
    }
  }

  lemma EightSteps(n: nat)
    ensures Geometric(1.0, 1.1, n + 8) == 2.14358881 * Geometric(1.0, 1.1, n)
  {
    assert Geometric(1.0, 1.1, n + 2) == 1.1 * Geometric(1.0, 1.1, n + 1);
    assert Geometric(1.0, 1.1, n + 4) == 1.1 * Geometric(1.0, 1.1, n + 3);
    assert Geometric(1.0, 1.1, n + 6) == 1.1 * Geometric(1.0, 1.1, n + 5);
    assert Geometric(1.0, 1.1, n + 7) == 1.1 * Geometric(1.0, 1.1, n + 6);
  }

  /** 1.1 to the 64th power, eight factors at a time. */
  lemma SlowGrowth()
    ensures 445.0 < Geometric(1.0, 1.1, 64) < 446.0
    ensures Geometric(1.0, 1.1, 65) == 1.1 * Geometric(1.0, 1.1, 64)
  {
    EightSteps(0);
    EightSteps(8);
    EightSteps(16);
    EightSteps(24);
    EightSteps(32);
    EightSteps(40);
    EightSteps(48);
    EightSteps(56);
  }

  const SLOW := ExponentialBackoff(1.0, 1.1, 100, 1000.0, false)

  /** After its 66th attempt this policy asks for less than 446 seconds, where uncapped it would ask for more than 489;
      with jitter it never draws more than that either. */
  lemma ExponentCapShows(draw: real)
    ensures SLOW.WellFormed()
    ensures var asked, uncapped := NextDelayOf(SLOW, 66, draw), Min(Geometric(1.0, 1.1, 65), 1000.0);
            && asked.After? && 445.0 < asked.seconds < 446.0 && uncapped > 489.0
            && NextDelayOf(SLOW.(jitter := true), 66, uncapped) == asked
  {
    SlowGrowth();
  }

  // ---- building a policy from its stored form ------------------------------

  datatype PolicyKind = Never | Fixed | Exponential

  datatype OptionName = Attempts | Delay | Base | Factor | MaxDelay | Jitter

  /** The stored form. The number of attempts may be given under two names; `others` are keys no policy knows. */
  datatype PolicySpec = PolicySpec(
    kind: Option<string>, maxAttempts: Option<int>, attempts: Option<int>, delay: Option<real>, base: Option<real>,
    factor: Option<real>, maxDelay: Option<real>, jitter: Option<bool>, others: set<string>)
  {
    function StatedAttempts(): Option<int> {
      if maxAttempts.Some? then maxAttempts else attempts
    }

    /** The options stated. */
    function Named(): set<OptionName> {
      (if StatedAttempts().Some? then {Attempts} else {}) + (if delay.Some? then {Delay} else {})
      + (if base.Some? then {Base} else {}) + (if factor.Some? then {Factor} else {})
      + (if maxDelay.Some? then {MaxDelay} else {}) + (if jitter.Some? then {Jitter} else {})
    }
  }

  datatype PolicyError = UnknownPolicy | UnknownOptions | BadOption

  /** What each kind of policy takes. */
  function OptionsOf(k: PolicyKind): set<OptionName> {
    match k
    case Never => {}
    case Fixed => {Delay, Attempts}
    case Exponential => {Base, Factor, Attempts, MaxDelay, Jitter}
  }

  function Or<T>(o: Option<T>, default: T): T {
    if o.Some? then o.value else default
  }

  /** Lower case; of the letters in the names of policies only the ASCII ones have another case. */
  function Lower(s: string): string {
    seq(|s|, i requires 0 <= i < |s| => if 'A' <= s[i] <= 'Z' then s[i] - 'A' + 'a' else s[i])
  }

  function WireName(k: PolicyKind): string {
    match k
    case Never => "none"
    case Fixed => "fixed"
    case Exponential => "exponential"
  }

  /** The policy that goes by this name, in any case; without a name it is the exponential one. */
  function KindOf(name: Option<string>): Option<PolicyKind> {
    var lower := Lower(Or(name, WireName(Exponential)));
    if lower == WireName(Never) then Some(Never)
    else if lower == WireName(Fixed) then Some(Fixed)
    else if lower == WireName(Exponential) then Some(Exponential)
    else None
  }

  lemma NamesDiffer(k: PolicyKind)
    ensures Lower(WireName(k)) == WireName(k) && KindOf(Some(WireName(k))) == Some(k)
  {
    assert |"none"| == 4 && |"fixed"| == 5 && |"exponential"| == 11;
    assert Lower(WireName(k)) == WireName(k);
  }

  function BuildPolicy(spec: Option<PolicySpec>): (r: Result<RetryPolicy, PolicyError>)
    ensures r.Success? ==> r.value.WellFormed() && r.value.MaxAttempts() >= 1
  {
    if spec.None? then Success(ExponentialBackoff(1.0, 2.0, 5, 300.0, true))
    else
      var s, kind := spec.value, KindOf(spec.value.kind);
      if kind.None? then Failure(UnknownPolicy)
      else if s.others != {} || s.Named() - OptionsOf(kind.value) != {} then Failure(UnknownOptions)
      else
        match kind.value
        case Never => Success(NoRetry)
        case Fixed => Checked(FixedDelay(Or(s.delay, 5.0), Or(s.StatedAttempts(), 3)))
        case Exponential =>
          Checked(ExponentialBackoff(Or(s.base, 1.0), Or(s.factor, 2.0), Or(s.StatedAttempts(), 5),
              Or(s.maxDelay, 300.0),
                                     Or(s.jitter, true)))
  }

  /** Nothing stored and nothing stated come to the same policy. */
  lemma DefaultPolicy()
    ensures BuildPolicy(None) == Success(ExponentialBackoff(1.0, 2.0, 5, 300.0, true))
    ensures BuildPolicy(Some(PolicySpec(None, None, None, None, None, None, None, None, {}))) == BuildPolicy(None)
  {
    NamesDiffer(Exponential);
    var unstated := PolicySpec(None, None, None, None, None, None, None, None, {});
    assert unstated.Named() == {};
  }

  function Checked(p: RetryPolicy): Result<RetryPolicy, PolicyError> {
    if p.WellFormed() then Success(p) else Failure(BadOption)
  }

  /** Every option of a policy, stated. */
  function Fields(p: RetryPolicy): PolicySpec {
    match p
    case NoRetry => PolicySpec(Some(WireName(Never)), None, None, None, None, None, None, None, {})
    case FixedDelay(d, n) => PolicySpec(Some(WireName(Fixed)), None, Some(n), Some(d), None, None, None, None, {})
    case ExponentialBackoff(b, f, n, m, j) =>
      PolicySpec(Some(WireName(Exponential)), None, Some(n), None, Some(b), Some(f), Some(m), Some(j), {})
  }

  /** A stated option has its value, one left out its default, and a policy without the option is not told of one. */
  predicate Agrees<T(==)>(stated: Option<T>, actual: Option<T>, default: T) {
    if actual.None? then stated.None? else actual.value == Or(stated, default)
  }

  predicate Describes(s: PolicySpec, p: RetryPolicy) {
    var f := Fields(p);
    && KindOf(s.kind) == KindOf(f.kind) && s.others == {}
    && Agrees(s.StatedAttempts(), f.attempts, if p.FixedDelay? then 3 else 5)
    && Agrees(s.delay, f.delay, 5.0) && Agrees(s.base, f.base, 1.0) && Agrees(s.factor, f.factor, 2.0)
    && Agrees(s.maxDelay, f.maxDelay, 300.0) && Agrees(s.jitter, f.jitter, true)
  }

  /** The options stated are among those of the kind exactly when no option is stated that its policies lack. */
  lemma NamedWithin(s: PolicySpec, k: PolicyKind)
    ensures s.Named() <= OptionsOf(k) <==>
            match k
            case Never => s.StatedAttempts().None? && s.delay.None? && s.base.None? && s.factor.None?
                && s.maxDelay.None?
                          && s.jitter.None?
            case Fixed => s.base.None? && s.factor.None? && s.maxDelay.None? && s.jitter.None?
            case Exponential => s.delay.None?
    ensures s.Named() - OptionsOf(k) == {} <==> s.Named() <= OptionsOf(k)
  {
    var named := s.Named();
    assert Delay in named <==> s.delay.Some?;
    assert Base in named <==> s.base.Some?;
    assert Factor in named <==> s.factor.Some?;
    assert MaxDelay in named <==> s.maxDelay.Some?;
    assert Jitter in named <==> s.jitter.Some?;
    assert Attempts in named <==> s.StatedAttempts().Some?;
    if named <= OptionsOf(k) {
      assert named - OptionsOf(k) == {};
    } else {
      var o :| o in named && o !in OptionsOf(k);
      assert o in named - OptionsOf(k);
    }
  }

  /** A stored form builds exactly the valid policy it describes. */
  lemma BuiltIff(s: PolicySpec, p: RetryPolicy)
    ensures BuildPolicy(Some(s)) == Success(p) <==> p.WellFormed() && Describes(s, p)
  {
    NamesDiffer(Never);
    NamesDiffer(Fixed);
    NamesDiffer(Exponential);
    if KindOf(s.kind).Some? {
      NamedWithin(s, KindOf(s.kind).value);
    }
  }

  /** Otherwise the error says why: no policy of that name, options that its policies lack, or values they refuse. */
  lemma RefusedBecause(s: PolicySpec)
    ensures BuildPolicy(Some(s)) == Failure(UnknownPolicy) <==> KindOf(s.kind).None?
    ensures BuildPolicy(Some(s)) == Failure(UnknownOptions) <==>
            KindOf(s.kind).Some? && !(s.others == {} && s.Named() <= OptionsOf(KindOf(s.kind).value))
    ensures BuildPolicy(Some(s)) == Failure(BadOption) <==> exists p :: Describes(s, p) && !p.WellFormed()
  {
    if KindOf(s.kind).Some? {
      NamedWithin(s, KindOf(s.kind).value);
    }
    forall p | Describes(s, p) && !p.WellFormed() ensures BuildPolicy(Some(s)) == Failure(BadOption) {
      DescribedIsChecked(s, p);
    }
    if BuildPolicy(Some(s)) == Failure(BadOption) {
      var p := Intended(s);
      DescribesIntended(s);
      assert Describes(s, p) && !p.WellFormed();
    }
  }

  /** The same letters, each in either case. */
  predicate SameLetters(name: string, word: string) {
    |name| == |word| && forall i | 0 <= i < |word| ::
      name[i] == word[i] || ('A' <= name[i] <= 'Z' && name[i] - 'A' + 'a' == word[i])
  }

  lemma LowerIs(name: string, word: string)
    requires forall i | 0 <= i < |word| :: 'a' <= word[i] <= 'z'
    ensures Lower(name) == word <==> SameLetters(name, word)
  {
    if SameLetters(name, word) {
      assert Lower(name) == word;
    } else if |name| == |word| {
      var i :| 0 <= i < |word| && !(name[i] == word[i] || ('A' <= name[i] <= 'Z' && name[i] - 'A' + 'a' == word[i]));
      assert Lower(name)[i] != word[i];
    }
  }

  /** A policy goes by its name in any case. */
  lemma KindNamed(name: string)
    ensures KindOf(Some(name)) == if SameLetters(name, "none") then Some(Never)
                                  else if SameLetters(name, "fixed") then Some(Fixed)
                                  else if SameLetters(name, "exponential") then Some(Exponential)
                                  else None
    ensures KindOf(None) == Some(Exponential)
  {
    LowerIs(name, "none");
    LowerIs(name, "fixed");
    LowerIs(name, "exponential");
    NamesDiffer(Exponential);
  }

  function Stated<T>(first: Option<T>, second: Option<T>, default: T): T {
    if first.Some? then first.value else if second.Some? then second.value else default
  }

  /** What is built has the values stated, `max_attempts` over `attempts`, and the defaults for what is not; and nothing
      was stated that it has no use for. */
  lemma BuiltOutcome(s: PolicySpec)
    requires BuildPolicy(Some(s)).Success?
    ensures s.others == {}
    ensures match BuildPolicy(Some(s)).value
            case NoRetry =>
              && s.maxAttempts.None? && s.attempts.None? && s.delay.None? && s.base.None? && s.factor.None?
              && s.maxDelay.None? && s.jitter.None?
            case FixedDelay(d, n) =>
              && d == Stated(s.delay, None, 5.0) && n == Stated(s.maxAttempts, s.attempts, 3)
              && s.base.None? && s.factor.None? && s.maxDelay.None? && s.jitter.None?
            case ExponentialBackoff(b, f, n, m, j) =>
              && b == Stated(s.base, None, 1.0) && f == Stated(s.factor, None, 2.0)
              && n == Stated(s.maxAttempts, s.attempts, 5) && m == Stated(s.maxDelay, None, 300.0)
              && j == Stated(s.jitter, None, true) && s.delay.None?
  {
    NamedWithin(s, KindOf(s.kind).value);
  }

  /** The policy with the stated options and defaults for the rest, valid or not. */
  function Intended(s: PolicySpec): RetryPolicy {
    match KindOf(s.kind)
    case Some(Fixed) => FixedDelay(Or(s.delay, 5.0), Or(s.StatedAttempts(), 3))
    case Some(Exponential) =>
      ExponentialBackoff(Or(s.base, 1.0), Or(s.factor, 2.0), Or(s.StatedAttempts(), 5), Or(s.maxDelay, 300.0),
        Or(s.jitter, true))
    case _ => NoRetry
  }

  lemma DescribesIntended(s: PolicySpec)
    requires KindOf(s.kind).Some? && s.others == {} && s.Named() <= OptionsOf(KindOf(s.kind).value)
    ensures Describes(s, Intended(s))
    ensures BuildPolicy(Some(s)) == Checked(Intended(s))
  {
    NamesDiffer(Never);
    NamesDiffer(Fixed);
    NamesDiffer(Exponential);
    NamedWithin(s, KindOf(s.kind).value);
  }

  /** A form that describes a policy builds that one or refuses its values. */
  lemma DescribedIsChecked(s: PolicySpec, p: RetryPolicy)
    requires Describes(s, p)
    ensures BuildPolicy(Some(s)) == Checked(p)
  {
    NamesDiffer(Never);
    NamesDiffer(Fixed);
    NamesDiffer(Exponential);
    if KindOf(s.kind).Some? {
      NamedWithin(s, KindOf(s.kind).value);
    }
  }

  /** The stored form of a policy. */
  function Describe(p: RetryPolicy): PolicySpec {
    Fields(p).(maxAttempts := Some(p.MaxAttempts()), attempts := None)
  }

  /** The stored form of a policy builds that policy, unchanged, unless the policy is never to retry: that one states a
      number of attempts, which its own constructor does not take. */
  lemma DescribedIsBuiltIff(p: RetryPolicy)
    requires p.WellFormed()
    ensures BuildPolicy(Some(Describe(p))) == Success(p) <==> !p.NoRetry?
    ensures p.NoRetry? ==> BuildPolicy(Some(Describe(p))) == Failure(UnknownOptions)
  {
    BuiltIff(Describe(p), p);
    RefusedBecause(Describe(p));
    NamesDiffer(Never);
    NamedWithin(Describe(p), Never);
  }
}
