/**
 * The per-trade countdown: whole seconds counted down once per second, the
 * completion callback fired when the count runs out, and the `MM:SS`
 * rendering of the remaining time.
 */
module TradeTimer {
  import opened Options
  import opened Decimal

  /** Remaining whole seconds, and whether the interval is still armed. */
  datatype Timer = Timer(seconds: int, running: bool)

  /** The timer as it starts: `Math.floor(duration / 1000)` seconds, armed. */
  function Start(durationMs: int): (t: Timer)
    ensures t.running
    ensures t.seconds * 1000 <= durationMs < (t.seconds + 1) * 1000
  {
    Timer(durationMs / 1000, true)
  }

  /**
   * One second of the countdown. At one second or less the count becomes
   * zero, the interval is cleared and completion fires; above that the count
   * drops by one. A cleared timer does nothing.
   */
  function Tick(t: Timer): (r: (Timer, bool))
    ensures r.1 <==> t.running && t.seconds <= 1
    ensures r.1 ==> r.0 == Timer(0, false)
    ensures t.running && t.seconds > 1 ==> r.0 == Timer(t.seconds - 1, true)
    ensures !t.running ==> r.0 == t
    ensures t.running ==> r.0.seconds >= 0
  {
    if !t.running then (t, false)
    else if t.seconds <= 1 then (Timer(0, false), true)
    else (Timer(t.seconds - 1, true), false)
  }

  /**
   * `n` ticks from `t`: the final timer and how many times completion fired.
   * Whatever the start, completion fires at most once and leaves the timer
   * cleared at zero; a cleared timer never fires and never changes.
   */
  function Run(t: Timer, n: nat): (r: (Timer, nat))
    ensures r.1 <= 1
    ensures r.1 == 1 ==> r.0 == Timer(0, false)
    ensures !t.running ==> r == (t, 0)
    decreases n
  {
    if n == 0 then (t, 0)
    else
      var (t1, fired) := Tick(t);
      var (t2, count) := Run(t1, n - 1);
      (t2, count + if fired then 1 else 0)
  }

  /** The number of ticks after which completion fires: the starting count, but at least one. */
  function TicksToComplete(seconds: int): nat {
    if seconds <= 1 then 1 else seconds
  }

  /**
   * A running countdown fires completion exactly once, on tick
   * `max(1, seconds)`; before that it shows `seconds - n`, after it zero.
   */
  lemma {:induction false} RunFiresOnce(s: int, n: nat)
    ensures var (t, fires) := Run(Timer(s, true), n);
      && (n < TicksToComplete(s) ==> fires == 0 && t == Timer(s - n, true))
      && (n >= TicksToComplete(s) ==> fires == 1 && t == Timer(0, false))
    decreases n
  {
    if n > 0 && s > 1 {
      RunFiresOnce(s - 1, n - 1);
    }
  }

  /** From a trade's duration: completion fires once, after `max(1, floor(duration / 1000))` ticks. */
  lemma CountdownCompletesOnce(durationMs: int, n: nat)
    ensures var (t, fires) := Run(Start(durationMs), n);
      && fires == (if n >= TicksToComplete(durationMs / 1000) then 1 else 0)
      && (durationMs >= 0 ==> t.seconds >= 0)
  {
    RunFiresOnce(durationMs / 1000, n);
  }

  // ------------------------------------------------------------ formatting

  /** `MM:SS` with both fields zero-padded to two digits; minutes may run past two digits. */
  function FormatTime(totalSeconds: nat): string
  {
    PadStart2(NatToString(totalSeconds / 60)) + ":" + PadStart2(NatToString(totalSeconds % 60))
  }

  /** The text is `MM:SS`: at least two digits, a colon, then exactly two digits. */
  lemma FormatTimeShape(n: nat)
    ensures var s := FormatTime(n);
      && |s| >= 5 && s[|s| - 3] == ':'
      && AllDigits(s[..|s| - 3]) && AllDigits(s[|s| - 2..])
  {
    var b := NatToString(n % 60);
    assert n % 60 < 100;
    assert |b| <= 2;
    Joined(NatToString(n / 60), b);
  }

  /** Padding two digit strings and joining them with a colon, as strings alone. */
  lemma Joined(a: string, b: string)
    requires AllDigits(a) && AllDigits(b) && |b| <= 2
    ensures var s := PadStart2(a) + ":" + PadStart2(b);
      && |s| >= 5 && s[|s| - 3] == ':' && s[..|s| - 3] == PadStart2(a) && s[|s| - 2..] == PadStart2(b)
      && AllDigits(PadStart2(a)) && AllDigits(PadStart2(b))
  {
    PaddedDigits(a);
    PaddedDigits(b);
    Fields(PadStart2(a), PadStart2(b));
  }

  /** The two fields can be cut back out of `minutes + ":" + seconds`. */
  lemma Fields(minutes: string, seconds: string)
    requires |minutes| >= 2 && |seconds| == 2 && AllDigits(minutes) && AllDigits(seconds)
    ensures var s := minutes + ":" + seconds;
      |s| >= 5 && s[|s| - 3] == ':' && s[..|s| - 3] == minutes && s[|s| - 2..] == seconds
  {
    var s := minutes + ":" + seconds;
    assert s[..|s| - 3] == minutes;
    assert s[|s| - 2..] == seconds;
  }

  /** Reads `MM:SS` back: everything before the last colon is minutes, the two digits after it seconds. */
  function ParseTime(s: string): (r: Option<nat>)
    ensures r.Some? ==> |s| >= 5
  {
    if |s| >= 5 && s[|s| - 3] == ':' && AllDigits(s[..|s| - 3]) && AllDigits(s[|s| - 2..]) then
      Some(ParseDigits(s[..|s| - 3]) * 60 + ParseDigits(s[|s| - 2..]))
    else None
  }

  /** The two digits after the colon, read as a number. */
  function SecondsField(s: string): Option<nat>
  {
    if |s| >= 2 && AllDigits(s[|s| - 2..]) then Some(ParseDigits(s[|s| - 2..])) else None
  }

  /** The seconds field is below 60, and reading the text back gives the number of seconds. */
  lemma FormatTimeRoundTrip(n: nat)
    ensures ParseTime(FormatTime(n)) == Some(n)
    ensures SecondsField(FormatTime(n)) == Some(n % 60)
  {
    Printed(n, n / 60, n % 60);
  }

  /** The text for `q` minutes and `r` seconds reads back as `n == q * 60 + r`. */
  lemma Printed(n: nat, q: nat, r: nat)
    requires r < 60 && n == q * 60 + r
    ensures var s := PadStart2(NatToString(q)) + ":" + PadStart2(NatToString(r));
      && ParseTime(s) == Some(n)
      && SecondsField(s) == Some(r)
  {
    PaddedPrinted(q);
    PaddedPrinted(r);
    ParseFields(PadStart2(NatToString(q)), PadStart2(NatToString(r)), q, r, n);
  }

  /** One field: the padded text of `n` is at least two digits and reads back as `n`. */
  lemma PaddedPrinted(n: nat)
    ensures var p := PadStart2(NatToString(n));
      && |p| >= 2 && AllDigits(p) && ParseDigits(p) == n
      && (n < 100 ==> |p| == 2)
  {
    PaddedValue(NatToString(n));
    ParsePrinted(n);
  }

  /** Reading back a minutes field and a two-digit seconds field joined by a colon. */
  lemma ParseFields(minutes: string, seconds: string, m: nat, sec: nat, total: nat)
    requires |minutes| >= 2 && |seconds| == 2 && AllDigits(minutes) && AllDigits(seconds)
    requires ParseDigits(minutes) == m && ParseDigits(seconds) == sec && total == m * 60 + sec
    ensures var s := minutes + ":" + seconds;
      && ParseTime(s) == Some(total)
      && SecondsField(s) == Some(sec)
  {
    Fields(minutes, seconds);
  }

  lemma PaddedValue(s: string)
    requires AllDigits(s)
    ensures AllDigits(PadStart2(s)) && ParseDigits(PadStart2(s)) == ParseDigits(s)
  {
    var p := PadStart2(s);
    LeadingZeros(Zeros(|p| - |s|), s);
  }

  lemma PaddedDigits(s: string)
    requires AllDigits(s)
    ensures AllDigits(PadStart2(s))
  {
    var p := PadStart2(s);
    LeadingZeros(Zeros(|p| - |s|), s);
  }

  /** The text is exactly five characters long precisely below 100 minutes. */
  lemma FormatTimeWidth(n: nat)
    ensures |FormatTime(n)| == 5 <==> n < 6000
  {
  }
}
