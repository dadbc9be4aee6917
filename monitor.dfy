/** The reconnection state machine of `network_monitor` and the countdown of
    `update_countdown`, as functions of the state before a step. The class in
    the Guardian module carries out the same steps in place and is proved
    against these functions.

    Every `is_connected()` the monitor runs is answered by `env.reach(k)`,
    where k counts the monitor's probes so far, and every login attempt by
    `env.login`, indexed by the attempts so far. Sleeps and the `running`
    flag are not modelled: `running` stays true. */
module Monitor {
  import Text
  import Probe
  import Portal
  import opened Login

  /** `max_attempts` and `check_interval` (seconds). */
  datatype Config = Config(maxAttempts: nat, checkInterval: nat)

  /** The values the program ships with. */
  const Defaults := Config(9999, 30)

  /** The outside world seen by the monitor: `reach(k)` answers its k-th
      probe, and `login(c, j)` is what its j-th call of
      `login_campus_network` reports while the stored login information is
      `c`. `CampusEnv` builds the one the program has; the lemmas below hold
      for any. */
  datatype Env = Env(
    reach: nat -> Probe.ProbeRound,
    login: (Portal.Credentials, nat) -> Report)

  /** The program's environment: each login attempt is
      `login_campus_network` run against what that attempt observes. */
  function CampusEnv(reach: nat -> Probe.ProbeRound, attempt: nat -> AttemptEnv): Env {
    Env(reach, (c: Portal.Credentials, j: nat) => LoginCampusNetwork(c, SuccessMarker, attempt(j)))
  }

  /** The state the monitor reads and writes: the login information, the
      globals `current_status` and `countdown_seconds`, the monitor's
      `attempt_count`, the notices raised so far, and how many probes and
      login attempts have been made (the positions in `Env`). */
  datatype State = State(
    creds: Portal.Credentials,
    status: string,
    countdown: int,
    attempts: nat,
    log: seq<Notice>,
    probes: nat,
    logins: nat)

  const Watching := "监控中"
  const Connected := "网络已连接"
  const Reconnecting := "网络断开，尝试重连"

  /** The status after a disconnected episode used up its attempts. */
  function Exhausted(max: nat): string {
    "达到最大尝试次数(" + Text.Decimal(max) + ")"
  }

  /** The reply marker the monitor passes to `login_campus_network`. */
  const SuccessMarker := "成功"

  const StartNotice := Notice("校园网助手", "开始网络监控")
  const ReconnectedNotice := Notice(StatusTitle, "登录后网络已连接")

  /** The notice before the k-th attempt of an episode. */
  function AttemptNotice(k: nat, max: nat): Notice {
    Notice(StatusTitle, "未检测到网络连接，尝试登录 (" + Text.Decimal(k) + "/" + Text.Decimal(max) + ")")
  }

  function ExhaustedNotice(max: nat): Notice {
    Notice(StatusTitle, "达到最大尝试次数(" + Text.Decimal(max) + ")，网络仍未连接")
  }

  /** The state at program start, once the login information is loaded. */
  function Initial(cfg: Config, creds: Portal.Credentials): State {
    State(creds, Watching, cfg.checkInterval, 0, [], 0, 0)
  }

  /** The answer to the monitor's next `is_connected()`. */
  predicate Reachable(s: State, env: Env) {
    Probe.IsConnected(env.reach(s.probes))
  }

  /** The outcome of the monitor's next login attempt. */
  function NextLogin(s: State, env: Env): Report {
    env.login(s.creds, s.logins)
  }

  /** The j-th login attempt fails. */
  predicate AttemptFails(creds: Portal.Credentials, env: Env, j: nat) {
    !env.login(creds, j).success
  }

  /** Every login attempt raises exactly one notice. */
  ghost predicate OneNoticeEach(env: Env) {
    forall c, j :: |env.login(c, j).notices| == 1
  }

  /** The program's environment has that shape. */
  lemma CampusEnvOneNotice(reach: nat -> Probe.ProbeRound, attempt: nat -> AttemptEnv)
    ensures OneNoticeEach(CampusEnv(reach, attempt))
  {
    forall c, j: nat ensures |CampusEnv(reach, attempt).login(c, j).notices| == 1 {
      var r := LoginCampusNetwork(c, SuccessMarker, attempt(j));
      assert |r.notices| == 1;
    }
  }

  /** The inner `while attempt_count < max_attempts` loop: attempt, and stop
      at the first successful login whose follow-up probe passes. It keeps
      the login information and every notice raised before it, and moves the
      probe and login positions only forward. */
  function RetryLoop(s: State, env: Env, cfg: Config): (r: State)
    ensures r.creds == s.creds && s.log <= r.log
    ensures s.probes <= r.probes && s.logins <= r.logins
    decreases cfg.maxAttempts - s.attempts
  {
    if s.attempts >= cfg.maxAttempts then s
    else
      var s1 := Attempted(s, env, cfg);
      if !NextLogin(s, env).success then RetryLoop(s1, env, cfg)
      else if Reachable(s1, env) then Reconnected(s1, cfg)
      else RetryLoop(s1.(probes := s1.probes + 1), env, cfg)
  }

  /** The state right after one attempt of the retry loop: counter and
      attempt index advanced, the numbered notice and the attempt's own
      notices raised. */
  function Attempted(s: State, env: Env, cfg: Config): (r: State)
    ensures r.creds == s.creds && r.status == s.status && r.countdown == s.countdown
    ensures r.attempts == s.attempts + 1 && r.logins == s.logins + 1 && r.probes == s.probes
    ensures s.log <= r.log && |r.log| > |s.log|
    ensures r.log[|s.log|] == AttemptNotice(r.attempts, cfg.maxAttempts)
  {
    s.(attempts := s.attempts + 1, logins := s.logins + 1,
       log := s.log + [AttemptNotice(s.attempts + 1, cfg.maxAttempts)] + NextLogin(s, env).notices)
  }

  /** The state after a successful attempt whose follow-up probe passed:
      the monitor is back in its between-passes shape, with the counter at
      0, and the reconnection is the last notice. */
  function Reconnected(s: State, cfg: Config): (r: State)
    ensures cfg.checkInterval >= 1 ==> Invariant(r, cfg)
    ensures r.attempts == 0 && r.creds == s.creds && r.logins == s.logins
    ensures s.log <= r.log && r.log != [] && r.log[|r.log| - 1] == ReconnectedNotice
  {
    s.(probes := s.probes + 1, log := s.log + [ReconnectedNotice],
       attempts := 0, status := Connected, countdown := cfg.checkInterval)
  }

  /** One pass of the outer `while running` loop. It probes at least once,
      keeps the login information and earlier notices, and a pass that finds
      the network up sets the connected status and makes no login. */
  function Iteration(s: State, env: Env, cfg: Config): (r: State)
    ensures r.creds == s.creds && s.log <= r.log
    ensures s.probes < r.probes && s.logins <= r.logins
    ensures Reachable(s, env) ==> r.status == Connected && r.logins == s.logins
  {
    if Reachable(s, env) then
      s.(probes := s.probes + 1, status := Connected, countdown := cfg.checkInterval)
    else
      GiveUpCheck(RetryLoop(s.(probes := s.probes + 1, status := Reconnecting), env, cfg), env, cfg)
  }

  /** The check after the retry loop: with the attempts used up, probe once
      more and, if that fails too, announce it and start counting again. */
  function GiveUpCheck(s: State, env: Env, cfg: Config): (r: State)
    ensures r.creds == s.creds && r.logins == s.logins && s.log <= r.log
    ensures r.attempts == s.attempts || r.attempts == 0
    ensures s.attempts < cfg.maxAttempts ==> r == s
  {
    if s.attempts < cfg.maxAttempts then s
    else if Reachable(s, env) then s.(probes := s.probes + 1)
    else
      s.(probes := s.probes + 1, log := s.log + [ExhaustedNotice(cfg.maxAttempts)],
         status := Exhausted(cfg.maxAttempts), attempts := 0)
  }

  /** `rounds` passes of the outer loop: at least one probe per pass, the
      login information and earlier notices untouched. */
  function Run(s: State, env: Env, cfg: Config, rounds: nat): (r: State)
    ensures r.creds == s.creds && s.log <= r.log
    ensures s.probes + rounds <= r.probes
  {
    if rounds == 0 then s else Iteration(Run(s, env, cfg, rounds - 1), env, cfg)
  }

  /** `network_monitor`, cut off after `rounds` passes: reset the attempt
      counter, announce the start, then loop. The start notice follows the
      earlier ones, and the login information is never changed. */
  function NetworkMonitor(s: State, env: Env, cfg: Config, rounds: nat): (r: State)
    ensures r.creds == s.creds && s.log + [StartNotice] <= r.log
    ensures s.probes + rounds <= r.probes
  {
    Run(s.(attempts := 0, log := s.log + [StartNotice]), env, cfg, rounds)
  }

  /** One second of `update_countdown`; a countdown within
      [1, check_interval] stays there, and it moves only while connected. */
  function Tick(status: string, countdown: int, interval: nat): (r: int)
    ensures 1 <= countdown <= interval ==> 1 <= r <= interval
    ensures !Text.Contains(status, Connected) ==> r == countdown
  {
    if Text.Contains(status, Connected) then
      if countdown - 1 <= 0 then interval else countdown - 1
    else countdown
  }

  /** `n` seconds of `update_countdown` while the status stays put; the
      countdown never leaves [1, check_interval]. */
  function Ticks(status: string, countdown: int, interval: nat, n: nat): (r: int)
    ensures 1 <= countdown <= interval ==> 1 <= r <= interval
  {
    if n == 0 then countdown else Tick(status, Ticks(status, countdown, interval, n - 1), interval)
  }

  /** The statuses the program ever sets. */
  predicate KnownStatus(st: string, max: nat) {
    st == Watching || st == Connected || st == Reconnecting || st == Exhausted(max)
  }

  /** What holds between passes: the attempt counter is 0 or at its maximum,
      the status is one the program sets, and the countdown lies in
      [1, check_interval]. */
  predicate Invariant(s: State, cfg: Config) {
    && (s.attempts == 0 || s.attempts == cfg.maxAttempts)
    && KnownStatus(s.status, cfg.maxAttempts)
    && 1 <= s.countdown <= cfg.checkInterval
  }

  // ---------------------------------------------------------------- retry loop

  /** The inner loop never pushes the counter past its maximum and ends in
      one of two ways: reconnected (counter 0, status connected, countdown
      reset) or out of attempts (counter at the maximum, status and
      countdown untouched). It makes at most one login per remaining
      attempt and never changes the login information. */
  lemma {:induction false} RetryLoopOutcome(s: State, env: Env, cfg: Config)
    requires s.attempts <= cfg.maxAttempts
    ensures var r := RetryLoop(s, env, cfg);
      && r.creds == s.creds
      && ((r.attempts == 0 && r.status == Connected && r.countdown == cfg.checkInterval)
          || (r.attempts == cfg.maxAttempts && r.status == s.status && r.countdown == s.countdown))
      && s.logins <= r.logins <= s.logins + (cfg.maxAttempts - s.attempts)
      && s.probes <= r.probes
    decreases cfg.maxAttempts - s.attempts
  {
    if s.attempts < cfg.maxAttempts {
      var s1 := Attempted(s, env, cfg);
      if !NextLogin(s, env).success {
        RetryLoopOutcome(s1, env, cfg);
      } else if !Reachable(s1, env) {
        RetryLoopOutcome(s1.(probes := s1.probes + 1), env, cfg);
      }
    }
  }

  /** One failed attempt: the loop goes on from the attempted state, which
      has two more notices, the first of them the numbered one. */
  lemma FailedAttempt(s: State, env: Env, cfg: Config)
    requires s.attempts < cfg.maxAttempts && OneNoticeEach(env)
    requires AttemptFails(s.creds, env, s.logins)
    ensures var s1 := Attempted(s, env, cfg);
      && RetryLoop(s, env, cfg) == RetryLoop(s1, env, cfg)
      && |s1.log| == |s.log| + 2
      && s1.log[..|s.log|] == s.log
      && s1.log[|s.log|] == AttemptNotice(s.attempts + 1, cfg.maxAttempts)
  {
    assert |env.login(s.creds, s.logins).notices| == 1;
  }

  /** When every remaining login fails, the loop makes exactly one attempt per
      remaining count, runs no probe, leaves status and countdown alone, and
      raises the numbered attempt notice before each attempt, each followed
      by that attempt's own notice. */
  lemma AllAttemptsFail(s: State, env: Env, cfg: Config)
    requires s.attempts <= cfg.maxAttempts
    requires OneNoticeEach(env)
    requires forall j :: s.logins <= j < s.logins + (cfg.maxAttempts - s.attempts) ==> AttemptFails(s.creds, env, j)
    ensures var r := RetryLoop(s, env, cfg);
      && r.attempts == cfg.maxAttempts
      && r.logins == s.logins + (cfg.maxAttempts - s.attempts)
      && r.probes == s.probes
      && r.status == s.status && r.countdown == s.countdown && r.creds == s.creds
      && |r.log| == |s.log| + 2 * (cfg.maxAttempts - s.attempts)
      && r.log[..|s.log|] == s.log
      && forall i :: 0 <= i < cfg.maxAttempts - s.attempts ==>
           r.log[|s.log| + 2 * i] == AttemptNotice(s.attempts + i + 1, cfg.maxAttempts)
  {
    AllAttemptsFailState(s, env, cfg);
    RetryLoopFailedRun(s, env, cfg);
    FailedRunLog(s, env, cfg, cfg.maxAttempts - s.attempts);
  }

  /** The counters, status and countdown after a run of failing logins. */
  lemma {:induction false} AllAttemptsFailState(s: State, env: Env, cfg: Config)
    requires s.attempts <= cfg.maxAttempts
    requires forall j :: s.logins <= j < s.logins + (cfg.maxAttempts - s.attempts) ==> AttemptFails(s.creds, env, j)
    ensures var r := RetryLoop(s, env, cfg);
      && r.attempts == cfg.maxAttempts
      && r.logins == s.logins + (cfg.maxAttempts - s.attempts)
      && r.probes == s.probes
      && r.status == s.status && r.countdown == s.countdown
    decreases cfg.maxAttempts - s.attempts
  {
    if s.attempts < cfg.maxAttempts {
      assert AttemptFails(s.creds, env, s.logins);
      AllAttemptsFailState(Attempted(s, env, cfg), env, cfg);
    }
  }

  /** The state after n attempts that all fail: `Attempted`, n times over. */
  function FailedRun(s: State, env: Env, cfg: Config, n: nat): State
    decreases n
  {
    if n == 0 then s else FailedRun(Attempted(s, env, cfg), env, cfg, n - 1)
  }

  /** When every remaining login fails, the retry loop is that many failed
      attempts and nothing more. */
  lemma {:induction false} RetryLoopFailedRun(s: State, env: Env, cfg: Config)
    requires s.attempts <= cfg.maxAttempts
    requires forall j :: s.logins <= j < s.logins + (cfg.maxAttempts - s.attempts) ==> AttemptFails(s.creds, env, j)
    ensures RetryLoop(s, env, cfg) == FailedRun(s, env, cfg, cfg.maxAttempts - s.attempts)
    decreases cfg.maxAttempts - s.attempts
  {
    if s.attempts < cfg.maxAttempts {
      assert AttemptFails(s.creds, env, s.logins);
      RetryLoopFailedRun(Attempted(s, env, cfg), env, cfg);
    }
  }

  /** n failed attempts add two notices each, the numbered notice first. */
  lemma {:induction false} FailedRunLog(s: State, env: Env, cfg: Config, n: nat)
    requires OneNoticeEach(env)
    ensures var r := FailedRun(s, env, cfg, n);
      && |r.log| == |s.log| + 2 * n
      && r.log[..|s.log|] == s.log
      && NumberedFrom(r.log, |s.log|, s.attempts, n, cfg.maxAttempts)
    decreases n
  {
    if n > 0 {
      var s1 := Attempted(s, env, cfg);
      assert |env.login(s.creds, s.logins).notices| == 1;
      assert s1.log[..|s.log|] == s.log;
      FailedRunLog(s1, env, cfg, n - 1);
      FailedLogStep(s.log, s1.log, FailedRun(s1, env, cfg, n - 1).log, s.attempts, n - 1, cfg.maxAttempts);
    }
  }

  /** From position `at` on, every other notice of `log` is the numbered
      notice of the attempts after the a-th, n of them. */
  predicate NumberedFrom(log: seq<Notice>, at: nat, a: nat, n: nat, max: nat) {
    forall i :: 0 <= i < n && at + 2 * i < |log| ==> log[at + 2 * i] == AttemptNotice(a + i + 1, max)
  }

  /** One failed attempt's two notices, put in front of the numbered notices
      of the attempts after it. */
  lemma FailedLogStep(log: seq<Notice>, log1: seq<Notice>, rlog: seq<Notice>, a: nat, n: nat, max: nat)
    requires |log1| == |log| + 2 && log1[..|log|] == log
    requires log1[|log|] == AttemptNotice(a + 1, max)
    requires |rlog| == |log1| + 2 * n && rlog[..|log1|] == log1
    requires NumberedFrom(rlog, |log1|, a + 1, n, max)
    ensures |rlog| == |log| + 2 * (n + 1) && rlog[..|log|] == log
    ensures NumberedFrom(rlog, |log|, a, n + 1, max)
  {
    assert rlog[..|log|] == rlog[..|log1|][..|log|];
    forall i | 0 <= i < n + 1
      ensures rlog[|log| + 2 * i] == AttemptNotice(a + i + 1, max)
    {
      if i == 0 {
        assert rlog[|log|] == rlog[..|log1|][|log|] == log1[|log|];
      } else {
        assert |log| + 2 * i == |log1| + 2 * (i - 1);
      }
    }
  }

  /** After k failed logins, a successful login whose follow-up probe passes
      ends the loop reconnected: counter back to 0, status connected,
      countdown reset, k + 1 logins and one probe spent, and the reconnection
      notice raised last. */
  lemma {:induction false} RecoversAfter(s: State, env: Env, cfg: Config, k: nat)
    requires s.attempts + k < cfg.maxAttempts
    requires forall j :: s.logins <= j < s.logins + k ==> AttemptFails(s.creds, env, j)
    requires !AttemptFails(s.creds, env, s.logins + k)
    requires Probe.IsConnected(env.reach(s.probes))
    ensures var r := RetryLoop(s, env, cfg);
      && r.attempts == 0 && r.status == Connected && r.countdown == cfg.checkInterval
      && r.logins == s.logins + k + 1 && r.probes == s.probes + 1
      && r.log != [] && r.log[|r.log| - 1] == ReconnectedNotice
    decreases k
  {
    var s1 := Attempted(s, env, cfg);
    if k > 0 {
      assert AttemptFails(s.creds, env, s.logins);
      RecoversAfter(s1, env, cfg, k - 1);
    }
  }

  // ------------------------------------------------------------ whole passes

  /** A disconnected pass in which every login fails makes exactly
      `max_attempts` attempts. Then the counter goes back to 0, with the
      exhaustion notice and status, only if the probe after the loop still
      fails; when that probe passes the counter is left at its maximum. */
  lemma ExhaustedPass(s: State, env: Env, cfg: Config)
    requires s.attempts == 0 && !Reachable(s, env) && OneNoticeEach(env)
    requires forall j :: s.logins <= j < s.logins + cfg.maxAttempts ==> AttemptFails(s.creds, env, j)
    ensures var r := Iteration(s, env, cfg);
      && r.logins == s.logins + cfg.maxAttempts
      && r.probes == s.probes + 2
      && (Probe.IsConnected(env.reach(s.probes + 1)) ==>
            r.attempts == cfg.maxAttempts && r.status == Reconnecting)
      && (!Probe.IsConnected(env.reach(s.probes + 1)) ==>
            && r.attempts == 0 && r.status == Exhausted(cfg.maxAttempts)
            && r.log != [] && r.log[|r.log| - 1] == ExhaustedNotice(cfg.maxAttempts))
  {
    AllAttemptsFail(s.(probes := s.probes + 1, status := Reconnecting), env, cfg);
  }

  /** With the program's environment and a username or password missing,
      every attempt is refused before any request, so a disconnected pass
      from 0 spends all `max_attempts` attempts and, if the network is still
      down afterwards, ends exhausted. */
  lemma IncompleteExhausts(s: State, reach: nat -> Probe.ProbeRound, attempt: nat -> AttemptEnv, cfg: Config)
    requires !Portal.Complete(s.creds) && s.attempts == 0
    requires !Probe.IsConnected(reach(s.probes)) && !Probe.IsConnected(reach(s.probes + 1))
    ensures var r := Iteration(s, CampusEnv(reach, attempt), cfg);
      && r.logins == s.logins + cfg.maxAttempts
      && r.attempts == 0 && r.status == Exhausted(cfg.maxAttempts)
  {
    var env := CampusEnv(reach, attempt);
    forall j: nat | s.logins <= j < s.logins + cfg.maxAttempts
      ensures AttemptFails(s.creds, env, j)
    {
      LoginRefusesIncomplete(s.creds, SuccessMarker, attempt(j));
    }
    CampusEnvOneNotice(reach, attempt);
    ExhaustedPass(s, env, cfg);
  }

  /** A disconnected pass that starts with the counter at its maximum (left
      there by a pass whose last probe passed) makes no login attempt at all. */
  lemma NoAttemptAtMax(s: State, env: Env, cfg: Config)
    requires s.attempts == cfg.maxAttempts && !Reachable(s, env)
    ensures Iteration(s, env, cfg).logins == s.logins
  {
  }

  /** A disconnected pass that starts from 0, fails k logins and then
      succeeds with a passing follow-up probe ends connected with the counter
      at 0 and the countdown reset, after exactly k + 1 attempts. */
  lemma RecoveredPass(s: State, env: Env, cfg: Config, k: nat)
    requires s.attempts == 0 && !Reachable(s, env) && k < cfg.maxAttempts
    requires forall j :: s.logins <= j < s.logins + k ==> AttemptFails(s.creds, env, j)
    requires !AttemptFails(s.creds, env, s.logins + k)
    requires Probe.IsConnected(env.reach(s.probes + 1))
    ensures var r := Iteration(s, env, cfg);
      && r.attempts == 0 && r.status == Connected && r.countdown == cfg.checkInterval
      && r.logins == s.logins + k + 1 && r.probes == s.probes + 2
  {
    RecoversAfter(s.(probes := s.probes + 1, status := Reconnecting), env, cfg, k);
  }

  /** A pass keeps the invariant and never touches the login information. */
  lemma IterationInvariant(s: State, env: Env, cfg: Config)
    requires Invariant(s, cfg)
    ensures Invariant(Iteration(s, env, cfg), cfg)
  {
    if !Reachable(s, env) {
      RetryLoopOutcome(s.(probes := s.probes + 1, status := Reconnecting), env, cfg);
    }
  }

  /** The invariant holds after any number of passes. */
  lemma {:induction false} RunInvariant(s: State, env: Env, cfg: Config, rounds: nat)
    requires Invariant(s, cfg)
    ensures Invariant(Run(s, env, cfg, rounds), cfg)
  {
    if rounds > 0 {
      RunInvariant(s, env, cfg, rounds - 1);
      IterationInvariant(Run(s, env, cfg, rounds - 1), env, cfg);
    }
  }

  /** From program start, the attempt counter never exceeds `max_attempts`,
      however long the monitor runs. */
  lemma MonitorBounded(cfg: Config, creds: Portal.Credentials, env: Env, rounds: nat)
    requires cfg.checkInterval >= 1
    ensures var r := NetworkMonitor(Initial(cfg, creds), env, cfg, rounds);
      r.attempts <= cfg.maxAttempts && Invariant(r, cfg) && r.creds == creds
  {
    var s0 := Initial(cfg, creds);
    RunInvariant(s0.(attempts := 0, log := s0.log + [StartNotice]), env, cfg, rounds);
  }

  // ---------------------------------------------------------------- countdown

  /** Among the statuses the program sets, only the connected one contains
      the text the countdown looks for. */
  lemma CountdownStatus(st: string, max: nat)
    requires KnownStatus(st, max)
    ensures Text.Contains(st, Connected) <==> st == Connected
  {
    if st == Connected {
      Text.ContainsSelf(st);
    } else if Text.Contains(st, Connected) {
      Text.ContainsChar(st, Connected, 2);
      if st == Exhausted(max) {
        Text.DecimalHasNo(max, Connected[2]);
      }
      assert false;
    }
  }

  /** While connected, the countdown falls by one each second from its value
      down to 1, and the tick after that restores `check_interval`. While not
      connected it stands still. */
  lemma {:induction false} TicksCycle(status: string, countdown: int, interval: nat, n: nat)
    requires 1 <= countdown <= interval
    ensures Text.Contains(status, Connected) && n < countdown ==>
              Ticks(status, countdown, interval, n) == countdown - n
    ensures Text.Contains(status, Connected) && n == countdown ==>
              Ticks(status, countdown, interval, n) == interval
    ensures !Text.Contains(status, Connected) ==> Ticks(status, countdown, interval, n) == countdown
  {
    if n > 0 {
      TicksCycle(status, countdown, interval, n - 1);
    }
  }

  /** While connected, as many ticks as the countdown shows bring it back
      to `check_interval`. */
  lemma TicksPeriod(countdown: int, interval: nat)
    requires 1 <= countdown <= interval
    ensures Ticks(Connected, countdown, interval, countdown) == interval
  {
    Text.ContainsSelf(Connected);
    TicksCycle(Connected, countdown, interval, countdown);
  }
}
