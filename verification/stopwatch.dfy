/**
 The stopwatch component: its display format `MM:SS`, the start/pause and
 reset handlers, and the arithmetic by which a running watch derives its
 seconds from the wall clock. The clock itself is a parameter (`now`, in
 integer milliseconds).
 */
module Stopwatch {
  import opened Options
  import opened Decimal

  /** The component's three pieces of state. */
  datatype Watch = Watch(seconds: nat, isRunning: bool, startTime: Option<int>)

  /** The state on mount. */
  const Initial := Watch(0, false, None)

  // ---------------------------------------------------------------------
  // Display

  /** One field of the display: `n.toString().padStart(2, "0")`. */
  function Field(n: nat): (r: string)
    ensures |r| >= 2 && AllDigits(r)
    ensures n < 100 ==> |r| == 2
  {
    DecimalLength(n);
    PadStart(ToDecimal(n), 2, '0')
  }

  /** `formatTime`: whole minutes and the remaining seconds, each written in
      decimal and left-padded with '0' to two characters, joined by ':'. */
  function FormatTime(totalSeconds: nat): (r: string)
    ensures |r| >= 5 && r[|r| - 3] == ':'
  {
    Join(Field(totalSeconds / 60), Field(totalSeconds % 60))
  }

  /** The minutes and seconds fields joined by a colon. */
  function Join(minutes: string, secs: string): (r: string)
    requires |secs| == 2
    ensures |r| == |minutes| + 3 && r[|r| - 3] == ':'
    ensures r[..|r| - 3] == minutes && r[|r| - 2..] == secs
  {
    minutes + ":" + secs
  }

  /** Reads an `M...M:SS` display back: a non-empty run of digits for the
      minutes, a colon, exactly two digits for seconds below 60. */
  function ParseTime(t: string): (r: Option<nat>)
    ensures r.Some? ==> |t| >= 4 && t[|t| - 3] == ':'
  {
    if |t| < 4 || t[|t| - 3] != ':' then None
    else
      var minutes := t[..|t| - 3];
      var secs := t[|t| - 2..];
      if !AllDigits(minutes) || !AllDigits(secs) then None
      else if ParseDecimal(secs) >= 60 then None
      else Some(ParseDecimal(minutes) * 60 + ParseDecimal(secs))
  }

  /** The tens digit of a two-digit field for a number below 60 is 0..5. */
  lemma FieldBelowSixty(n: nat)
    requires n < 60
    ensures '0' <= Field(n)[0] <= '5'
  {
    DecimalLength(n);
    if n >= 10 {
      assert ToDecimal(n) == ToDecimal(n / 10) + [DigitChar(n % 10)];
      assert ToDecimal(n / 10) == [DigitChar(n / 10)];
    }
  }

  /** The display always ends in a seconds field of two digits whose first
      digit is 0..5, and everything before the colon is digits. */
  lemma FormatTimeFields(s: nat)
    ensures var r := FormatTime(s);
      && AllDigits(r[..|r| - 3])
      && AllDigits(r[|r| - 2..])
      && '0' <= r[|r| - 2] <= '5'
  {
    var q := s % 60;
    FieldBelowSixty(q);
    var r := FormatTime(s);
    assert r[|r| - 2..] == Field(q);
    assert r[|r| - 2] == Field(q)[0];
  }

  /** Reading back a joined display gives minutes * 60 plus seconds. */
  lemma ParseJoin(minutes: string, secs: string)
    requires |minutes| >= 1 && |secs| == 2
    requires AllDigits(minutes) && AllDigits(secs) && ParseDecimal(secs) < 60
    ensures ParseTime(Join(minutes, secs)) == Some(ParseDecimal(minutes) * 60 + ParseDecimal(secs))
  {
    var t := Join(minutes, secs);
    var m, q := t[..|t| - 3], t[|t| - 2..];
    assert m == minutes && q == secs;
    assert AllDigits(m) && AllDigits(q);
    assert ParseDecimal(q) < 60;
  }

  /** Reading back the display of `m` minutes and `q` seconds gives their
      total `s`. */
  lemma ParseFields(m: nat, q: nat, s: nat)
    requires q < 60 && m * 60 + q == s
    ensures ParseTime(Join(Field(m), Field(q))) == Some(s)
  {
    ParsePadded(m, 2);
    ParsePadded(q, 2);
    ParseJoin(Field(m), Field(q));
  }

  /** Parsing the display recovers the number of seconds: minutes * 60 plus
      a seconds field in 0..59. */
  lemma ParseFormatTime(s: nat)
    ensures ParseTime(FormatTime(s)) == Some(s)
  {
    var m, q := s / 60, s % 60;
    assert FormatTime(s) == Join(Field(m), Field(q));
    ParseFields(m, q, s);
  }

  /** Two different second counts never show the same display. */
  lemma FormatTimeInjective(a: nat, b: nat)
    ensures FormatTime(a) == FormatTime(b) ==> a == b
  {
    ParseFormatTime(a);
    ParseFormatTime(b);
  }

  /** Below 100 minutes the display is exactly `MM:SS`. */
  lemma FormatTimeShort(s: nat)
    requires s < 6000
    ensures |FormatTime(s)| == 5 && FormatTime(s)[2] == ':'
  {
    assert s / 60 < 100;
  }

  /** From 100 minutes on, the minutes are written in full and the display
      grows beyond five characters: padding never truncates. */
  lemma FormatTimeLong(s: nat)
    requires s >= 6000
    ensures |FormatTime(s)| > 5
    ensures FormatTime(s)[..|FormatTime(s)| - 3] == ToDecimal(s / 60)
  {
    var m := s / 60;
    assert m >= 100;
    DecimalLength(m);
    assert Field(m) == ToDecimal(m);
  }

  // ---------------------------------------------------------------------
  // Handlers

  /** `handleStartStop`: flips whether the watch runs, nothing else. */
  function StartStop(w: Watch): (r: Watch)
    ensures r.isRunning != w.isRunning
    ensures r.seconds == w.seconds && r.startTime == w.startTime
  {
    w.(isRunning := !w.isRunning)
  }

  /** `handleReset`: stops the watch, zeroes it and forgets the start time. */
  function Reset(w: Watch): (r: Watch)
    ensures !r.isRunning && r.seconds == 0 && r.startTime.None?
  {
    Watch(0, false, None)
  }

  lemma StartStopTwice(w: Watch)
    ensures StartStop(StartStop(w)) == w
  {
  }

  /** Reset reaches the mount state from anywhere, and resetting again
      changes nothing. */
  lemma ResetIdempotent(w: Watch)
    ensures Reset(w) == Initial
    ensures Reset(Reset(w)) == Reset(w)
  {
  }

  // ---------------------------------------------------------------------
  // Clock arithmetic, over integer milliseconds

  /** The start time the effect records when the watch starts running:
      `now - seconds * 1000`, so the seconds already shown count as elapsed
      and resuming does not jump: at that instant the whole seconds since
      the start equal the seconds shown. */
  function ResumeStart(now: int, seconds: nat): (start: int)
    ensures start <= now
    ensures Elapsed(now, start) == seconds
  {
    var start := now - seconds * 1000;
    assert now - start == seconds * 1000;
    start
  }

  /** `Math.floor((now - start) / 1000)`: whole seconds since `start`.
      Dafny's division by the positive 1000 already rounds toward minus
      infinity, like `Math.floor`. */
  function Elapsed(now: int, start: int): (r: int)
    ensures r * 1000 <= now - start < (r + 1) * 1000
  {
    (now - start) / 1000
  }

  /** The running effect: when the watch runs, it records the start time
      from the clock reading `now`; when paused it does nothing. */
  function Effect(w: Watch, now: int): (r: Watch)
    ensures r.seconds == w.seconds && r.isRunning == w.isRunning
    ensures w.isRunning ==> r.startTime == Some(now - w.seconds * 1000)
    ensures w.isRunning ==> Elapsed(now, r.startTime.value) == w.seconds
    ensures !w.isRunning ==> r == w
  {
    if w.isRunning then w.(startTime := Some(ResumeStart(now, w.seconds))) else w
  }

  /** One interval tick: the seconds shown become the whole seconds since
      the recorded start. The tick dereferences the start time, so it must
      be set, and the clock is taken not to run backwards past it. */
  function Tick(w: Watch, now: int): (r: Watch)
    requires w.isRunning && w.startTime.Some? && w.startTime.value <= now
    ensures r.isRunning && r.startTime == w.startTime
    ensures r.seconds * 1000 <= now - w.startTime.value < (r.seconds + 1) * 1000
  {
    w.(seconds := Elapsed(now, w.startTime.value))
  }

  /** After resuming at `resumedAt`, a tick at a later instant shows the
      seconds from before the pause plus the whole seconds run since. */
  lemma TickAfterResume(w: Watch, resumedAt: int, now: int)
    requires w.isRunning && resumedAt <= now
    ensures var started := Effect(w, resumedAt);
      && started.startTime.Some?
      && started.startTime.value <= now
      && Tick(started, now).seconds == w.seconds + (now - resumedAt) / 1000
  {
    var start := ResumeStart(resumedAt, w.seconds);
    var d := now - resumedAt;
    assert now - start == d + w.seconds * 1000;
    assert (d + w.seconds * 1000) / 1000 == d / 1000 + w.seconds;
  }

  /** Later ticks never show fewer seconds than earlier ones. */
  lemma TickMonotone(w: Watch, t1: int, t2: int)
    requires w.isRunning && w.startTime.Some? && w.startTime.value <= t1 <= t2
    ensures Tick(w, t1).seconds <= Tick(w, t2).seconds
  {
  }
}
