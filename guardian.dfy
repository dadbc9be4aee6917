/** The program's shared state (the globals `username`, `password`,
    `login_IP`, `current_status`, `countdown_seconds`, together with the
    monitor's `attempt_count` and the notices raised) and the procedures
    that update it in place: `network_monitor`, `update_countdown` and the
    settings handler `handle_param_dialog`. Each method is proved to leave
    the state the matching function of the Monitor and Portal modules
    computes; the properties of those functions are proved there. The
    monitor's probes and login attempts go through an `Env`; the program's
    own is `Monitor.CampusEnv`, whose attempts run
    `Login.LoginCampusNetwork`. */
module Guardian {
  import Text
  import Probe
  import Portal
  import opened Login
  import opened Monitor

  const SettingsNotice := Notice("设置修改", "登录信息已更新")

  class CampusAssistant {
    /** `max_attempts` and `check_interval`; the program never changes them,
        and the configuration file does not hold them. */
    const config: Config

    var creds: Portal.Credentials
    var status: string
    var countdown: int
    var attempts: nat
    var log: seq<Notice>
    var probes: nat
    var logins: nat

    /** The whole state as a value. */
    function Snapshot(): State
      reads this
    {
      State(creds, status, countdown, attempts, log, probes, logins)
    }

    /** Program start: the globals at their initial values, with the fixed
        `max_attempts` and `check_interval` and the login information the
        configuration file supplied. */
    constructor (creds: Portal.Credentials)
      ensures config == Defaults
      ensures Snapshot() == Initial(Defaults, creds)
    {
      config := Defaults;
      this.creds := creds;
      status := Watching;
      countdown := Defaults.checkInterval;
      attempts := 0;
      log := [];
      probes := 0;
      logins := 0;
    }

    /** One `is_connected()` call, answered by the environment. */
    method IsConnected(env: Env) returns (up: bool)
      modifies this
      ensures up == Reachable(old(Snapshot()), env)
      ensures Snapshot() == old(Snapshot()).(probes := old(probes) + 1)
    {
      up := Probe.IsConnected(env.reach(probes));
      probes := probes + 1;
    }

    /** One attempt of the retry loop: count it, announce it, run
        `login_campus_network` against what this attempt observes. */
    method Attempt(env: Env) returns (report: Report)
      modifies this
      ensures report == env.login(old(creds), old(logins))
      ensures Snapshot() == Attempted(old(Snapshot()), env, config)
    {
      attempts := attempts + 1;
      log := log + [AttemptNotice(attempts, config.maxAttempts)];
      report := env.login(creds, logins);
      logins := logins + 1;
      log := log + report.notices;
    }

    /** One round of the inner loop: attempt, and on a successful login
        probe again; `done` when that probe passed and the monitor is back
        online. Otherwise the loop has the same outcome from here as from
        before the round, with one attempt fewer left. */
    method RetryStep(env: Env) returns (done: bool)
      requires attempts < config.maxAttempts
      modifies this
      ensures done ==> Snapshot() == RetryLoop(old(Snapshot()), env, config)
      ensures !done ==> attempts == old(attempts) + 1
      ensures !done ==> RetryLoop(Snapshot(), env, config) == RetryLoop(old(Snapshot()), env, config)
    {
      done := false;
      var report := Attempt(env);
      if report.success {
        var back := IsConnected(env);
        if back {
          log := log + [ReconnectedNotice];
          attempts := 0;
          status := Connected;
          countdown := config.checkInterval;
          done := true;
        }
      }
    }

    /** The inner `while attempt_count < max_attempts` loop. */
    method Retry(env: Env)
      modifies this
      ensures Snapshot() == RetryLoop(old(Snapshot()), env, config)
    {
      ghost var entry := Snapshot();
      while attempts < config.maxAttempts
        invariant RetryLoop(Snapshot(), env, config) == RetryLoop(entry, env, config)
        decreases config.maxAttempts - attempts
      {
        var done := RetryStep(env);
        if done {
          return;
        }
      }
    }

    /** One pass of `network_monitor`'s outer loop. */
    method MonitorPass(env: Env)
      modifies this
      ensures Snapshot() == Iteration(old(Snapshot()), env, config)
    {
      var up := IsConnected(env);
      if up {
        status := Connected;
        countdown := config.checkInterval;
        return;
      }
      status := Reconnecting;
      Retry(env);
      GiveUp(env);
    }

    /** What follows the retry loop in a disconnected pass. */
    method GiveUp(env: Env)
      modifies this
      ensures Snapshot() == GiveUpCheck(old(Snapshot()), env, config)
    {
      if attempts >= config.maxAttempts {
        var stillUp := IsConnected(env);
        if !stillUp {
          log := log + [ExhaustedNotice(config.maxAttempts)];
          status := Exhausted(config.maxAttempts);
          attempts := 0;
        }
      }
    }

    /** `network_monitor` for `rounds` passes of its outer loop. */
    method NetworkMonitor(env: Env, rounds: nat)
      modifies this
      ensures Snapshot() == Monitor.NetworkMonitor(old(Snapshot()), env, config, rounds)
    {
      attempts := 0;
      log := log + [StartNotice];
      ghost var start := Snapshot();
      for i := 0 to rounds
        invariant Snapshot() == Run(start, env, config, i)
      {
        MonitorPass(env);
      }
    }

    /** One second of `update_countdown`. */
    method CountdownTick()
      modifies this`countdown
      ensures countdown == Tick(status, old(countdown), config.checkInterval)
    {
      if Text.Contains(status, Connected) {
        countdown := countdown - 1;
        if countdown <= 0 {
          countdown := config.checkInterval;
        }
      }
    }

    /** `update_countdown` for `seconds` seconds with no monitor pass in
        between. */
    method UpdateCountdown(seconds: nat)
      modifies this`countdown
      ensures countdown == Ticks(status, old(countdown), config.checkInterval, seconds)
    {
      for i := 0 to seconds
        invariant countdown == Ticks(status, old(countdown), config.checkInterval, i)
      {
        CountdownTick();
      }
    }

    /** `handle_param_dialog`: when the dialog is accepted, each non-empty
        field replaces the stored one and the update is announced; a
        cancelled dialog changes nothing. */
    method HandleParamDialog(accepted: bool, edited: Portal.Credentials)
      modifies this`creds, this`log
      ensures creds == (if accepted then Portal.MergeCredentials(old(creds), edited) else old(creds))
      ensures log == old(log) + (if accepted then [SettingsNotice] else [])
    {
      if accepted {
        if edited.username != "" {
          creds := creds.(username := edited.username);
        }
        if edited.password != "" {
          creds := creds.(password := edited.password);
        }
        if edited.loginIP != "" {
          creds := creds.(loginIP := edited.loginIP);
        }
        log := log + [SettingsNotice];
      }
    }
  }
}
