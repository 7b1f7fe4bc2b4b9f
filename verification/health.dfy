/**
 * The health checker that runs beside the agent: its configuration
 * defaults, the checks one health check makes, the bounded NFS retry, and
 * the removal of the `rm` alias from `/etc/bash.bashrc` when a critical
 * check fails. Commands, file reads and the clock are outcomes passed in.
 */
module Health {
  import opened Wrappers
  import Text

  // ---------------------------------------------------------------------
  // Configuration (loadConfig)
  // ---------------------------------------------------------------------

  datatype Config = Config(
    recycleBinDir: string,
    numWorkers: int,
    checkIntervalSec: int,
    maxRetries: int,
    retryDelaySec: int)

  /**
   * The defaults `loadConfig` applies after decoding: a zero check interval,
   * retry count or retry delay becomes 60, 5 or 60; every other value,
   * negative ones included, is kept.
   */
  function ApplyDefaults(c: Config): (r: Config)
    ensures r.recycleBinDir == c.recycleBinDir && r.numWorkers == c.numWorkers
    ensures r.checkIntervalSec != 0 && r.maxRetries != 0 && r.retryDelaySec != 0
    ensures c.checkIntervalSec != 0 ==> r.checkIntervalSec == c.checkIntervalSec
    ensures c.maxRetries != 0 ==> r.maxRetries == c.maxRetries
    ensures c.retryDelaySec != 0 ==> r.retryDelaySec == c.retryDelaySec
  {
    c.(checkIntervalSec := if c.checkIntervalSec == 0 then 60 else c.checkIntervalSec,
       maxRetries := if c.maxRetries == 0 then 5 else c.maxRetries,
       retryDelaySec := if c.retryDelaySec == 0 then 60 else c.retryDelaySec)
  }

  /** The zero values get 60 seconds, 5 retries and 60 seconds; applying the defaults twice changes nothing more. */
  lemma DefaultValues(c: Config)
    ensures c.checkIntervalSec == 0 ==> ApplyDefaults(c).checkIntervalSec == 60
    ensures c.maxRetries == 0 ==> ApplyDefaults(c).maxRetries == 5
    ensures c.retryDelaySec == 0 ==> ApplyDefaults(c).retryDelaySec == 60
    ensures ApplyDefaults(ApplyDefaults(c)) == ApplyDefaults(c)
  {
  }

  /** What opening and decoding the configuration file gives. */
  datatype ConfigFile = OpenFailed(openErr: string) | DecodeFailed(decodeErr: string) | Decoded(config: Config)

  /** `loadConfig(path)`. */
  function LoadConfig(f: ConfigFile): (r: Result<Config>)
    ensures r.Ok? <==> f.Decoded?
    ensures r.Ok? ==> r.value == ApplyDefaults(f.config)
  {
    match f
    case OpenFailed(e) => Err("failed to open config file: " + e)
    case DecodeFailed(e) => Err("failed to decode config: " + e)
    case Decoded(c) => Ok(ApplyDefaults(c))
  }

  // ---------------------------------------------------------------------
  // The alias line
  // ---------------------------------------------------------------------

  const AliasLine: string := "alias rm='/usr/local/bin/cbin'"

  /** `checkAliasExists` once the file is read: plain substring containment. */
  predicate HasAlias(content: string)
  {
    Text.Contains(content, AliasLine)
  }

  /** The lines `removeAlias` keeps. */
  function KeepLine(): string -> bool
  {
    line => !Text.Contains(line, AliasLine)
  }

  /** The text `removeAlias` writes back: the lines without the alias, in order, joined with newlines. */
  function StripAlias(content: string): string
  {
    Text.Join(Text.Filter(Text.Split(content, '\n'), KeepLine()), '\n')
  }

  /** `removeAlias`'s loop over the lines. */
  method FilterAliasLines(lines: seq<string>) returns (newLines: seq<string>)
    ensures newLines == Text.Filter(lines, KeepLine())
  {
    newLines := [];
    for i := 0 to |lines|
      invariant newLines == Text.Filter(lines[..i], KeepLine())
    {
      assert lines[..i + 1][..i] == lines[..i];
      if !Text.Contains(lines[i], AliasLine) {
        newLines := newLines + [lines[i]];
      }
    }
    assert lines[..|lines|] == lines;
  }

  lemma AliasHasNoNewline()
    ensures AliasLine != [] && '\n' !in AliasLine
  {
  }

  /** After the rewrite the alias is gone. */
  lemma StripAliasRemoves(content: string)
    ensures !HasAlias(StripAlias(content))
  {
    var kept := Text.Filter(Text.Split(content, '\n'), KeepLine());
    AliasHasNoNewline();
    assert forall i :: 0 <= i < |kept| ==> !Text.Contains(kept[i], AliasLine) by {
      forall i | 0 <= i < |kept| ensures !Text.Contains(kept[i], AliasLine) {
        assert KeepLine()(kept[i]);
      }
    }
    Text.JoinAvoids(kept, '\n', AliasLine);
  }

  /** Text without the alias is written back unchanged. */
  lemma StripAliasKeepsCleanText(content: string)
    requires !HasAlias(content)
    ensures StripAlias(content) == content
  {
    var lines := Text.Split(content, '\n');
    Text.JoinSplit(content, '\n');
    forall i | 0 <= i < |lines|
      ensures KeepLine()(lines[i])
    {
      if Text.Contains(lines[i], AliasLine) {
        Text.JoinContainsPart(lines, '\n', AliasLine, i);
        assert false;
      }
    }
    Text.FilterKeepsAll(lines, KeepLine());
  }

  /** Removing the alias a second time changes nothing. */
  lemma StripAliasIdempotent(content: string)
    ensures StripAlias(StripAlias(content)) == StripAlias(content)
  {
    StripAliasRemoves(content);
    StripAliasKeepsCleanText(StripAlias(content));
  }

  // ---------------------------------------------------------------------
  // Retrying the NFS check (checkNFSWithRetries)
  // ---------------------------------------------------------------------

  /** The outcome of one `df -t nfs -t nfs4`: an error, or its output. */
  datatype NfsProbe = DfFailed(err: string) | DfOutput(out: string)

  /** `checkNFSMount` succeeds when `df` ran and printed something. */
  predicate Mounted(p: NfsProbe)
  {
    p.DfOutput? && |p.out| > 0
  }

  const RetriesExhausted: string := "NFS mount check failed after max retries"

  /** Whether the retry loop found a mount, how many probes it made, and the last error it leaves. */
  datatype RetryOutcome = RetryOutcome(ok: bool, attempts: nat, lastError: string)

  /** The retry loop from attempt `i` on; the `i`-th probe is `probes(i)`. */
  function RetryFrom(probes: nat -> NfsProbe, maxRetries: int, i: nat, lastError: string): RetryOutcome
    decreases maxRetries - i
  {
    if i >= maxRetries then RetryOutcome(false, i, RetriesExhausted)
    else
      match probes(i)
      case DfFailed(e) => RetryFrom(probes, maxRetries, i + 1, "failed to check NFS mount: " + e)
      case DfOutput(out) =>
        if |out| > 0 then RetryOutcome(true, i + 1, lastError) else RetryFrom(probes, maxRetries, i + 1, lastError)
  }

  function NfsRetry(probes: nat -> NfsProbe, maxRetries: int, lastError: string): RetryOutcome
  {
    RetryFrom(probes, maxRetries, 0, lastError)
  }

  lemma {:induction false} RetryFromSpec(probes: nat -> NfsProbe, maxRetries: int, i: nat, lastError: string)
    requires i <= maxRetries || i == 0
    ensures var r := RetryFrom(probes, maxRetries, i, lastError);
      (r.ok <==> exists j :: i <= j < maxRetries && Mounted(probes(j))) &&
      (r.ok ==> i < r.attempts <= maxRetries && Mounted(probes(r.attempts - 1)) &&
                forall j :: i <= j < r.attempts - 1 ==> !Mounted(probes(j))) &&
      (r.ok && r.lastError != lastError ==> exists j :: i <= j < r.attempts - 1 && probes(j).DfFailed?) &&
      (!r.ok ==> r.attempts == (if maxRetries < i then i else maxRetries) && r.lastError == RetriesExhausted)
    decreases maxRetries - i
  {
    if i < maxRetries {
      match probes(i)
      case DfFailed(e) =>
        RetryFromSpec(probes, maxRetries, i + 1, "failed to check NFS mount: " + e);
      case DfOutput(out) =>
        if |out| == 0 {
          RetryFromSpec(probes, maxRetries, i + 1, lastError);
        }
    }
  }

  /**
   * At most `MaxRetries` probes, stopping at the first that finds a mount:
   * the result is true exactly when one of the first `MaxRetries` probes
   * finds a mount; otherwise every allowed probe was made (none when
   * `MaxRetries <= 0`) and the last error says the retries ran out.
   */
  lemma NfsRetrySpec(probes: nat -> NfsProbe, maxRetries: int, lastError: string)
    ensures var r := NfsRetry(probes, maxRetries, lastError);
      (r.ok <==> exists j :: 0 <= j < maxRetries && Mounted(probes(j))) &&
      (r.ok ==> 0 < r.attempts <= maxRetries && Mounted(probes(r.attempts - 1)) &&
                forall j :: 0 <= j < r.attempts - 1 ==> !Mounted(probes(j))) &&
      (r.ok && r.lastError != lastError ==> exists j :: 0 <= j < r.attempts - 1 && probes(j).DfFailed?) &&
      (!r.ok ==> r.attempts == (if maxRetries < 0 then 0 else maxRetries) && r.lastError == RetriesExhausted)
  {
    RetryFromSpec(probes, maxRetries, 0, lastError);
  }

  // ---------------------------------------------------------------------
  // One health check (performHealthCheck)
  // ---------------------------------------------------------------------

  datatype HealthStatus = HealthStatus(
    timestamp: int,
    programRunning: bool,
    recycleBinExists: bool,
    recycleFileExists: bool,
    aliasExists: bool,
    nfsExists: bool,
    lastError: string)

  /** What `removeAlias`'s read, write and `source` command do. */
  datatype RemovalEnv = RemovalEnv(readErr: Option<string>, writeErr: Option<string>, sourceErr: Option<string>)

  /** What the system does during one health check; an error is `Some(message)`. */
  datatype CheckEnv = CheckEnv(
    now: int,
    pgrepErr: Option<string>,
    binDirErr: Option<string>,
    cbinErr: Option<string>,
    bashrcErr: Option<string>,
    probes: nat -> NfsProbe,
    removal: RemovalEnv)

  /** A check that failed with `err` overwrites the last error; a passing one leaves it. */
  function Failing(s: HealthStatus, prefix: string, err: Option<string>): (r: HealthStatus)
    ensures r == s.(lastError := r.lastError)
    ensures err.None? ==> r == s
  {
    if err.Some? then s.(lastError := prefix + err.value) else s
  }

  datatype Removal = Removal(bashrc: string, err: Option<string>)

  /** `removeAlias()` on the text of `/etc/bash.bashrc`; a failed write leaves the text as it was. */
  function RemoveAlias(bashrc: string, env: RemovalEnv): Removal
  {
    if env.readErr.Some? then Removal(bashrc, Some("failed to read bash.bashrc: " + env.readErr.value))
    else if env.writeErr.Some? then Removal(bashrc, Some("failed to write bash.bashrc: " + env.writeErr.value))
    else Removal(StripAlias(bashrc), env.sourceErr)
  }

  /**
   * `removeAlias` leaves the text as it was when the read or the write
   * fails, and otherwise leaves it without the alias, whatever `source`
   * then reports; every failure is reported.
   */
  lemma RemoveAliasOutcome(bashrc: string, env: RemovalEnv)
    ensures var r := RemoveAlias(bashrc, env);
      (env.readErr.Some? || env.writeErr.Some? ==> r.bashrc == bashrc && r.err.Some?) &&
      (env.readErr.None? && env.writeErr.None? ==> r.bashrc == StripAlias(bashrc) && !HasAlias(r.bashrc) && r.err == env.sourceErr)
  {
    StripAliasRemoves(bashrc);
  }

  /** The status after a check, the text of `/etc/bash.bashrc`, and whether the alias removal ran. */
  datatype CheckOutcome = CheckOutcome(status: HealthStatus, bashrc: string, removalTried: bool)

  const ProcessDown: string := "cbin process not running: "
  const BinDirMissing: string := "recycle bin directory not accessible: "
  const CbinMissing: string := "cbin executable not found: "
  const BashrcUnreadable: string := "failed to read bash.bashrc: "

  /** The status after `checkProcessRunning` and its assignment. */
  function ProcessChecked(s: HealthStatus, err: Option<string>): HealthStatus
  {
    Failing(s, ProcessDown, err).(programRunning := err.None?)
  }

  /** The status after `checkRecycleBinExists` and its assignment. */
  function BinDirChecked(s: HealthStatus, err: Option<string>): HealthStatus
  {
    Failing(s, BinDirMissing, err).(recycleBinExists := err.None?)
  }

  /** The status after `checkRecycleFileExists` and its assignment. */
  function CbinChecked(s: HealthStatus, err: Option<string>): HealthStatus
  {
    Failing(s, CbinMissing, err).(recycleFileExists := err.None?)
  }

  /** The status after `checkAliasExists` and its assignment. */
  function AliasChecked(s: HealthStatus, err: Option<string>, bashrc: string): HealthStatus
  {
    Failing(s, BashrcUnreadable, err).(aliasExists := err.None? && HasAlias(bashrc))
  }

  /** The status once the four checks before the NFS check ran. */
  function FirstChecks(s: HealthStatus, bashrc: string, env: CheckEnv): HealthStatus
  {
    AliasChecked(CbinChecked(BinDirChecked(ProcessChecked(s.(timestamp := env.now), env.pgrepErr),
      env.binDirErr), env.cbinErr), env.bashrcErr, bashrc)
  }

  /** `performHealthCheck()`. */
  function HealthCheck(config: Config, s: HealthStatus, bashrc: string, env: CheckEnv): CheckOutcome
  {
    var s4 := FirstChecks(s, bashrc, env);
    var retry := NfsRetry(env.probes, config.maxRetries, s4.lastError);
    var s5 := s4.(nfsExists := retry.ok, lastError := retry.lastError);
    if !s5.programRunning || !s5.nfsExists then CheckOutcome(s5, RemoveAlias(bashrc, env.removal).bashrc, true)
    else CheckOutcome(s5, bashrc, false)
  }

  class HealthChecker {
    const config: Config
    var status: HealthStatus
    var bashrc: string
    /** How many NFS probes were made so far: the index of the next one. */
    ghost var probesMade: nat

    constructor (config: Config, now: int, bashrc: string)
      ensures this.config == config && this.bashrc == bashrc && probesMade == 0
      ensures status == HealthStatus(now, false, false, false, false, false, "")
    {
      this.config := config;
      this.bashrc := bashrc;
      status := HealthStatus(now, false, false, false, false, false, "");
      probesMade := 0;
    }

    /** `checkNFSWithRetries()`: the `i`-th probe of this call is `probes(i)`. */
    method CheckNFSWithRetries(probes: nat -> NfsProbe) returns (ok: bool)
      modifies this
      ensures var r := NfsRetry(probes, config.maxRetries, old(status.lastError));
        ok == r.ok && status == old(status).(lastError := r.lastError) && probesMade == old(probesMade) + r.attempts
      ensures bashrc == old(bashrc)
    {
      var i := 0;
      while i < config.maxRetries
        invariant 0 <= i && (i <= config.maxRetries || i == 0)
        invariant probesMade == old(probesMade) + i
        invariant bashrc == old(bashrc) && status == old(status).(lastError := status.lastError)
        invariant NfsRetry(probes, config.maxRetries, old(status.lastError))
               == RetryFrom(probes, config.maxRetries, i, status.lastError)
        decreases config.maxRetries - i
      {
        probesMade := probesMade + 1;
        match probes(i) {
          case DfFailed(e) =>
            status := status.(lastError := "failed to check NFS mount: " + e);
          case DfOutput(out) =>
            if |out| > 0 {
              return true;
            }
        }
        i := i + 1;
      }
      status := status.(lastError := RetriesExhausted);
      return false;
    }

    /** `removeAlias()`. */
    method RemoveAliasFromBashrc(env: RemovalEnv) returns (err: Option<string>)
      modifies this
      ensures Removal(bashrc, err) == RemoveAlias(old(bashrc), env)
      ensures status == old(status) && probesMade == old(probesMade)
    {
      if env.readErr.Some? {
        return Some("failed to read bash.bashrc: " + env.readErr.value);
      }
      var lines := Text.Split(bashrc, '\n');
      var newLines := FilterAliasLines(lines);
      if env.writeErr.Some? {
        return Some("failed to write bash.bashrc: " + env.writeErr.value);
      }
      bashrc := Text.Join(newLines, '\n');
      return env.sourceErr;
    }

    /** `checkProcessRunning()`, given what `pgrep -f cbin` returned. */
    method CheckProcessRunning(pgrepErr: Option<string>) returns (running: bool)
      modifies this
      ensures running == pgrepErr.None? && status == Failing(old(status), ProcessDown, pgrepErr)
      ensures bashrc == old(bashrc) && probesMade == old(probesMade)
    {
      if pgrepErr.Some? {
        status := status.(lastError := ProcessDown + pgrepErr.value);
        return false;
      }
      return true;
    }

    /** `checkRecycleBinExists()`, given what stat'ing the recycle bin directory returned. */
    method CheckRecycleBinExists(statErr: Option<string>) returns (present: bool)
      modifies this
      ensures present == statErr.None? && status == Failing(old(status), BinDirMissing, statErr)
      ensures bashrc == old(bashrc) && probesMade == old(probesMade)
    {
      if statErr.Some? {
        status := status.(lastError := BinDirMissing + statErr.value);
        return false;
      }
      return true;
    }

    /** `checkRecycleFileExists()`, given what stat'ing `/usr/local/bin/cbin` returned. */
    method CheckRecycleFileExists(statErr: Option<string>) returns (present: bool)
      modifies this
      ensures present == statErr.None? && status == Failing(old(status), CbinMissing, statErr)
      ensures bashrc == old(bashrc) && probesMade == old(probesMade)
    {
      if statErr.Some? {
        status := status.(lastError := CbinMissing + statErr.value);
        return false;
      }
      return true;
    }

    /** `checkAliasExists()`, given whether reading `/etc/bash.bashrc` failed. */
    method CheckAliasExists(readErr: Option<string>) returns (present: bool)
      modifies this
      ensures present == (readErr.None? && HasAlias(bashrc)) && status == Failing(old(status), BashrcUnreadable, readErr)
      ensures bashrc == old(bashrc) && probesMade == old(probesMade)
    {
      if readErr.Some? {
        status := status.(lastError := BashrcUnreadable + readErr.value);
        return false;
      }
      return Text.Contains(bashrc, AliasLine);
    }

    /** `performHealthCheck()`: returns whether it logged the critical failure and tried to remove the alias. */
    method PerformHealthCheck(env: CheckEnv) returns (removalTried: bool)
      modifies this
      ensures CheckOutcome(status, bashrc, removalTried) == HealthCheck(config, old(status), old(bashrc), env)
      ensures probesMade == old(probesMade) + NfsRetry(env.probes, config.maxRetries, FirstChecks(old(status), old(bashrc), env).lastError).attempts
    {
      status := status.(timestamp := env.now);
      var ok := CheckProcessRunning(env.pgrepErr);
      status := status.(programRunning := ok);
      ok := CheckRecycleBinExists(env.binDirErr);
      status := status.(recycleBinExists := ok);
      ok := CheckRecycleFileExists(env.cbinErr);
      status := status.(recycleFileExists := ok);
      ok := CheckAliasExists(env.bashrcErr);
      status := status.(aliasExists := ok);
      ok := CheckNFSWithRetries(env.probes);
      status := status.(nfsExists := ok);
      removalTried := !status.programRunning || !status.nfsExists;
      if removalTried {
        var _ := RemoveAliasFromBashrc(env.removal);
      }
    }
  }

  lemma FirstChecksFlags(s: HealthStatus, bashrc: string, env: CheckEnv)
    ensures var st := FirstChecks(s, bashrc, env);
      st.timestamp == env.now &&
      st.programRunning == env.pgrepErr.None? &&
      st.recycleBinExists == env.binDirErr.None? &&
      st.recycleFileExists == env.cbinErr.None? &&
      st.aliasExists == (env.bashrcErr.None? && HasAlias(bashrc))
  {
  }

  /** The status flags report the checks, in the order `performHealthCheck` makes them. */
  lemma StatusReportsChecks(config: Config, s: HealthStatus, bashrc: string, env: CheckEnv)
    ensures var st := HealthCheck(config, s, bashrc, env).status;
      st.timestamp == env.now &&
      st.programRunning == env.pgrepErr.None? &&
      st.recycleBinExists == env.binDirErr.None? &&
      st.recycleFileExists == env.cbinErr.None? &&
      st.aliasExists == (env.bashrcErr.None? && HasAlias(bashrc)) &&
      (st.nfsExists <==> exists j :: 0 <= j < config.maxRetries && Mounted(env.probes(j)))
  {
    FirstChecksFlags(s, bashrc, env);
    NfsRetrySpec(env.probes, config.maxRetries, FirstChecks(s, bashrc, env).lastError);
  }

  /** The alias removal runs exactly when the process check or the NFS check failed. */
  lemma RemovalIffCritical(config: Config, s: HealthStatus, bashrc: string, env: CheckEnv)
    ensures var o := HealthCheck(config, s, bashrc, env);
      o.removalTried <==> !o.status.programRunning || !o.status.nfsExists
  {
  }

  /**
   * `/etc/bash.bashrc` changes only through the removal: without it the text
   * is kept; with it the text is kept (a read or write failed) or loses
   * every line holding the alias.
   */
  lemma BashrcOnlyStripped(config: Config, s: HealthStatus, bashrc: string, env: CheckEnv)
    ensures var o := HealthCheck(config, s, bashrc, env);
      !o.removalTried ==> o.bashrc == bashrc
    ensures var o := HealthCheck(config, s, bashrc, env);
      o.removalTried ==> o.bashrc == bashrc || (o.bashrc == StripAlias(bashrc) && !HasAlias(o.bashrc))
  {
    RemoveAliasOutcome(bashrc, env.removal);
  }

  /** With every earlier check passing, the last error is the one before them. */
  lemma FirstChecksKeepError(s: HealthStatus, bashrc: string, env: CheckEnv)
    requires env.pgrepErr.None? && env.binDirErr.None? && env.cbinErr.None? && env.bashrcErr.None?
    ensures FirstChecks(s, bashrc, env).lastError == s.lastError
  {
  }

  /**
   * Passing checks never clear the last error: when every check passes and
   * the first NFS probe finds a mount, the last error is the one before.
   */
  lemma LastErrorNotCleared(config: Config, s: HealthStatus, bashrc: string, env: CheckEnv)
    requires env.pgrepErr.None? && env.binDirErr.None? && env.cbinErr.None? && env.bashrcErr.None?
    requires config.maxRetries > 0 && Mounted(env.probes(0))
    ensures HealthCheck(config, s, bashrc, env).status.lastError == s.lastError
    ensures !HealthCheck(config, s, bashrc, env).removalTried
  {
    FirstChecksKeepError(s, bashrc, env);
  }

  /**
   * The last error changes only when a check failed: a command, a file, the
   * NFS check as a whole, or one of the `df` runs made before the one that
   * found the mount.
   */
  lemma LastErrorOnlyOnFailure(config: Config, s: HealthStatus, bashrc: string, env: CheckEnv)
    requires HealthCheck(config, s, bashrc, env).status.lastError != s.lastError
    ensures var r := NfsRetry(env.probes, config.maxRetries, FirstChecks(s, bashrc, env).lastError);
      env.pgrepErr.Some? || env.binDirErr.Some? || env.cbinErr.Some? || env.bashrcErr.Some? ||
      !r.ok || exists j :: 0 <= j < r.attempts - 1 && env.probes(j).DfFailed?
  {
    var s4 := FirstChecks(s, bashrc, env);
    NfsRetrySpec(env.probes, config.maxRetries, s4.lastError);
    if env.pgrepErr.None? && env.binDirErr.None? && env.cbinErr.None? && env.bashrcErr.None? {
      FirstChecksKeepError(s, bashrc, env);
    }
  }
}
