/** Reading events out of the text wpa_supplicant sends. */
module WpaEvents {
  import opened Types
  import opened Strings
  import opened PathStateFsm

  const EVENT_CONNECTED := "CTRL-EVENT-CONNECTED "
  const EVENT_DISCONNECTED := "CTRL-EVENT-DISCONNECTED "
  const EVENT_SIGNAL_CHANGE := "CTRL-EVENT-SIGNAL-CHANGE "
  const EVENT_TERMINATING := "CTRL-EVENT-TERMINATING "

  function StripPriority(raw: string): string {
    if raw != "" && raw[0] == '<' then
      match Find(raw, ">", 0)
      case Some(close) => raw[close + 1..]
      case None => raw
    else raw
  }

  predicate IsInt32(x: int) {
    -0x8000_0000 <= x < 0x8000_0000
  }

  /** An optional minus and the digits after it; the value stays 0 without digits or out of range. */
  function FromChars(s: string): int32 {
    var negative := s != "" && s[0] == '-';
    var t := if negative then s[1..] else s;
    var n := LeadingDigits(t);
    if n == 0 then 0
    else
      var magnitude: int := NatValue(t[..n]);
      var v := if negative then -magnitude else magnitude;
      if IsInt32(v) then v else 0
  }

  /** What stands from `start` to the next space, or to the end. */
  function ValueText(msg: string, start: nat): string
    requires start < |msg|
  {
    match Find(msg, " ", start)
    case None => msg[start..]
    case Some(end) => msg[start..end]
  }

  /** The number after the first occurrence of the key, up to the next space. */
  function ParseIntField(msg: string, key: string): int32 {
    match Find(msg, key, 0)
    case None => 0
    case Some(pos) =>
      var start := pos + |key|;
      if start >= |msg| then 0 else FromChars(ValueText(msg, start))
  }

  function ParseEvent(raw: string, iface: string): WpaEvent {
    var msg := StripPriority(raw);
    if EVENT_CONNECTED <= msg then WpaEvent(Connected, iface, 0, 0)
    else if EVENT_DISCONNECTED <= msg then WpaEvent(Disconnected, iface, 0, 0)
    else if EVENT_SIGNAL_CHANGE <= msg then
      WpaEvent(SignalChange, iface, ParseIntField(msg, "rssi="), ParseIntField(msg, "avg_rssi="))
    else if EVENT_TERMINATING <= msg then WpaEvent(Terminating, iface, 0, 0)
    else WpaEvent(Other, iface, 0, 0)
  }

  lemma FromCharsPrinted(x: int)
    ensures FromChars(PrintInt(x)) == if IsInt32(x) then x else 0
  {
    var ds := PrintNat(if x < 0 then -x else x);
    PrintNatValue(if x < 0 then -x else x);
    LeadingDigitsOf(ds, "");
    assert ds + "" == ds && ds[..|ds|] == ds;
    assert IsDigit(ds[0]) && ds[0] != '-';
    assert x < 0 ==> PrintInt(x)[1..] == ds;
  }

  lemma NoSpaceInNumber(x: int)
    ensures forall i :: 0 <= i < |PrintInt(x)| ==> PrintInt(x)[i] == '-' || IsDigit(PrintInt(x)[i])
  {}

  /** The number ends at the first space after it, or with the text. */
  lemma NumberEnds(front: string, number: string, rest: string)
    requires rest == "" || rest[0] == ' '
    requires forall i :: 0 <= i < |number| ==> number[i] != ' '
    ensures Find(front + number + rest, " ", |front|) == if rest == "" then None else Some(|front| + |number|)
  {
    var msg, end := front + number + rest, |front| + |number|;
    forall j | |front| <= j < end ensures !MatchAt(msg, " ", j) {
      assert msg[j + 0] == number[j - |front|] && " "[0] == ' ';
    }
    if rest == "" {
      assert forall j :: end <= j ==> !MatchAt(msg, " ", j);
    } else {
      assert msg[end + 0] == ' ' && MatchAt(msg, " ", end);
      FindIs(msg, " ", |front|, end);
    }
  }

  lemma KeyHere(before: string, key: string, number: string, rest: string)
    ensures MatchAt(before + key + number + rest, key, |before|)
  {
    var msg := before + key + number + rest;
    assert msg[|before|..|before| + |key|] == key;
    forall i | 0 <= i < |key| ensures msg[|before| + i] == key[i] {
      assert msg[|before|..|before| + |key|][i] == key[i];
    }
  }

  lemma FieldReads(msg: string, key: string, pos: nat, number: string)
    requires Find(msg, key, 0) == Some(pos) && pos + |key| < |msg| && ValueText(msg, pos + |key|) == number
    ensures ParseIntField(msg, key) == FromChars(number)
  {}

  /** A printed field is read back, whatever comes before its key's first occurrence and after the next space. */
  lemma FieldRoundTrip(before: string, key: string, x: int, rest: string)
    requires key != "" && (rest == "" || rest[0] == ' ')
    requires forall j :: 0 <= j < |before| ==> !MatchAt(before + key + PrintInt(x) + rest, key, j)
    ensures ParseIntField(before + key + PrintInt(x) + rest, key) == if IsInt32(x) then x else 0
  {
    var number := PrintInt(x);
    var msg := before + key + number + rest;
    KeyHere(before, key, number, rest);
    FindIs(msg, key, 0, |before|);
    NoSpaceInNumber(x);
    FieldText(before + key, number, rest, msg);
    FieldReads(msg, key, |before|, number);
    FromCharsPrinted(x);
  }

  lemma FieldText(front: string, number: string, rest: string, msg: string)
    requires msg == front + number + rest && (rest == "" || rest[0] == ' ') && number != ""
    requires forall i :: 0 <= i < |number| ==> number[i] != ' '
    ensures |front| < |msg| && ValueText(msg, |front|) == number
  {
    NumberEnds(front, number, rest);
    assert msg[|front|..|front| + |number|] == number;
    if rest == "" { assert msg[|front|..] == number; }
  }

  /** A field whose key is missing, or at the end, or followed by no number, is 0. */
  lemma FieldAbsent(msg: string, key: string)
    requires match Find(msg, key, 0)
             case None => true
             case Some(pos) =>
               var v := pos + |key|;
               v >= |msg| || !(IsDigit(msg[v]) || (msg[v] == '-' && v + 1 < |msg| && IsDigit(msg[v + 1])))
    ensures ParseIntField(msg, key) == 0
  {
    var found := Find(msg, key, 0);
    if found.Some? && found.value + |key| < |msg| {
      var start := found.value + |key|;
      NoNumber(ValueText(msg, start), msg, start);
    }
  }

  lemma NoNumber(s: string, msg: string, start: nat)
    requires start < |msg| && start + |s| <= |msg| && s == msg[start..start + |s|]
    requires !(IsDigit(msg[start]) || (msg[start] == '-' && start + 1 < |msg| && IsDigit(msg[start + 1])))
    ensures FromChars(s) == 0
  {
    if s != "" {
      assert s[0] == msg[start];
      if |s| > 1 { assert s[1] == msg[start + 1] && s[1..][0] == s[1]; }
    }
  }

  /** A key cannot occur where its first character does not. */
  lemma NoOccurrence(s: string, key: string, bound: nat)
    requires key != "" && bound <= |s| && forall j :: 0 <= j < bound ==> s[j] != key[0]
    ensures forall j :: 0 <= j < bound ==> !MatchAt(s, key, j)
  {
    forall j | 0 <= j < bound ensures !MatchAt(s, key, j) {
      assert s[j + 0] != key[0];
    }
  }

  function PrintSignalChange(priority: string, x: int, y: int): string {
    "<" + priority + ">" + SignalBody(x, y)
  }

  function SignalBody(x: int, y: int): string {
    EVENT_SIGNAL_CHANGE + "rssi=" + PrintInt(x) + " " + "avg_rssi=" + PrintInt(y)
  }

  lemma StripsPriority(priority: string, body: string)
    requires forall i :: 0 <= i < |priority| ==> priority[i] != '>'
    ensures StripPriority("<" + priority + ">" + body) == body
  {
    var raw := "<" + priority + ">" + body;
    var close := |priority| + 1;
    assert MatchAt(raw, ">", close);
    forall j | 0 <= j < close ensures !MatchAt(raw, ">", j) {
      assert raw[j + 0] == (if j == 0 then '<' else priority[j - 1]) && ">"[0] == '>';
    }
    FindIs(raw, ">", 0, close);
    assert raw[close + 1..] == body;
  }

  /** Text without a priority prefix is left as it is. */
  lemma NoPriority(raw: string)
    requires raw == "" || raw[0] != '<' || forall i :: 0 <= i < |raw| ==> raw[i] != '>'
    ensures StripPriority(raw) == raw
  {
    if raw != "" && raw[0] == '<' {
      forall j: nat ensures !MatchAt(raw, ">", j) {
        assert j < |raw| ==> raw[j + 0] != ">"[0];
      }
    }
  }

  lemma DigitsThenText(ds: string, rest: string)
    requires ds != "" && AllDigits(ds) && (rest == "" || !IsDigit(rest[0]))
    ensures FromChars(ds + rest) == if IsInt32(NatValue(ds)) then NatValue(ds) else 0
  {
    LeadingDigitsOf(ds, rest);
    assert (ds + rest)[..|ds|] == ds && (ds + rest)[0] == ds[0] && ds[0] != '-';
  }

  lemma MinusValue(t: string, n: nat)
    requires LeadingDigits(t) == n > 0
    ensures var v: int := NatValue(t[..n]); FromChars("-" + t) == if IsInt32(-v) then -v else 0
  {
    assert ("-" + t)[0] == '-' && ("-" + t)[1..] == t;
  }

  lemma MinusThenText(ds: string, rest: string)
    requires ds != "" && AllDigits(ds) && (rest == "" || !IsDigit(rest[0]))
    ensures var v: int := NatValue(ds); FromChars("-" + (ds + rest)) == if IsInt32(-v) then -v else 0
  {
    LeadingDigitsOf(ds, rest);
    assert (ds + rest)[..|ds|] == ds;
    MinusValue(ds + rest, |ds|);
  }

  /** Whatever follows a number that is no digit is ignored. */
  lemma NumberThenText(x: int, rest: string)
    requires rest == "" || !IsDigit(rest[0])
    ensures FromChars(PrintInt(x) + rest) == if IsInt32(x) then x else 0
  {
    var n := if x < 0 then -x else x;
    PrintNatValue(n);
    if x < 0 {
      MinusThenText(PrintNat(n), rest);
      assert "-" + PrintNat(n) + rest == "-" + (PrintNat(n) + rest);
    } else {
      DigitsThenText(PrintNat(n), rest);
    }
  }

  /** Two printed fields in a row, when no key's first character occurs before the key. */
  lemma TwoFields(p: string, key1: string, x: int, key2: string, y: int)
    requires key1 != "" && key2 != "" && key2[0] != ' ' && key2[0] != '-' && !IsDigit(key2[0])
    requires forall j :: 0 <= j < |p| ==> p[j] != key1[0] && p[j] != key2[0]
    requires forall j :: 0 <= j < |key1| ==> key1[j] != key2[0]
    ensures var msg := p + key1 + PrintInt(x) + " " + key2 + PrintInt(y);
      && ParseIntField(msg, key1) == (if IsInt32(x) then x else 0)
      && ParseIntField(msg, key2) == (if IsInt32(y) then y else 0)
  {
    var msg := p + key1 + PrintInt(x) + " " + key2 + PrintInt(y);
    var rest := " " + key2 + PrintInt(y);
    assert msg == p + key1 + PrintInt(x) + rest;
    NoOccurrence(msg, key1, |p|);
    FieldRoundTrip(p, key1, x, rest);

    var before := p + key1 + PrintInt(x) + " ";
    assert msg == before + key2 + PrintInt(y) + "";
    NoSpaceInNumber(x);
    NoOccurrence(msg, key2, |before|);
    FieldRoundTrip(before, key2, y, "");
  }

  lemma SignalFields(x: int, y: int)
    ensures ParseIntField(SignalBody(x, y), "rssi=") == if IsInt32(x) then x else 0
    ensures ParseIntField(SignalBody(x, y), "avg_rssi=") == if IsInt32(y) then y else 0
  {
    TwoFields(EVENT_SIGNAL_CHANGE, "rssi=", x, "avg_rssi=", y);
  }

  /** Each kind is recognised by its own prefix and by nothing else; only signal reports carry numbers. */
  lemma EventKinds(raw: string, iface: string)
    ensures var e, msg := ParseEvent(raw, iface), StripPriority(raw);
      && (e.kind == Connected <==> EVENT_CONNECTED <= msg)
      && (e.kind == Disconnected <==> EVENT_DISCONNECTED <= msg)
      && (e.kind == SignalChange <==> EVENT_SIGNAL_CHANGE <= msg)
      && (e.kind == Terminating <==> EVENT_TERMINATING <= msg)
      && e.iface == iface && (e.kind != SignalChange ==> e.rssi == e.avgRssi == 0)
  {
    var msg := StripPriority(raw);
    assert EVENT_CONNECTED[11] == 'C' && EVENT_DISCONNECTED[11] == 'D';
    assert EVENT_SIGNAL_CHANGE[11] == 'S' && EVENT_TERMINATING[11] == 'T';
    assert EVENT_CONNECTED <= msg ==> msg[11] == 'C';
    assert EVENT_DISCONNECTED <= msg ==> msg[11] == 'D';
    assert EVENT_SIGNAL_CHANGE <= msg ==> msg[11] == 'S';
    assert EVENT_TERMINATING <= msg ==> msg[11] == 'T';
  }

  lemma SignalParsed(raw: string, body: string, iface: string)
    requires StripPriority(raw) == body && EVENT_SIGNAL_CHANGE <= body
    ensures ParseEvent(raw, iface)
         == WpaEvent(SignalChange, iface, ParseIntField(body, "rssi="), ParseIntField(body, "avg_rssi="))
  {
    EventKinds(raw, iface);
  }

  lemma BodyBegins(x: int, y: int)
    ensures EVENT_SIGNAL_CHANGE <= SignalBody(x, y)
  {
    Begins(EVENT_SIGNAL_CHANGE, "rssi=", PrintInt(x), " ", "avg_rssi=", PrintInt(y));
  }

  lemma Begins(a: string, b: string, c: string, d: string, e: string, f: string)
    ensures a <= a + b + c + d + e + f
  {}

  /**
   A printed signal report is read back: both numbers if they fit 32 bits, 0 in place of one that does not. The first
   `rssi=` is the right one although `avg_rssi=` contains it.
   */
  lemma SignalRoundTrip(priority: string, x: int, y: int, iface: string)
    requires AllDigits(priority)
    ensures ParseEvent(PrintSignalChange(priority, x, y), iface)
         == WpaEvent(SignalChange, iface, if IsInt32(x) then x else 0, if IsInt32(y) then y else 0)
  {
    var body := SignalBody(x, y);
    StripsPriority(priority, body);
    BodyBegins(x, y);
    SignalFields(x, y);
    SignalParsed("<" + priority + ">" + body, body, iface);
  }

  /** A signal report without either key, as some drivers send it, reads as strength 0. */
  lemma SignalWithoutKeys(raw: string, iface: string)
    requires EVENT_SIGNAL_CHANGE <= StripPriority(raw)
    requires Find(StripPriority(raw), "rssi=", 0).None? && Find(StripPriority(raw), "avg_rssi=", 0).None?
    ensures ParseEvent(raw, iface) == WpaEvent(SignalChange, iface, 0, 0)
  {
    SignalParsed(raw, StripPriority(raw), iface);
    FieldAbsent(StripPriority(raw), "rssi=");
    FieldAbsent(StripPriority(raw), "avg_rssi=");
  }

  /** Messages as wpa_supplicant sends them, written out, with any text behind. */
  lemma EventTexts(rest: string, iface: string)
    ensures ParseEvent("<3>" + ("CTRL-EVENT-CONNECTED " + rest), iface) == WpaEvent(Connected, iface, 0, 0)
    ensures ParseEvent("<3>" + ("CTRL-EVENT-DISCONNECTED " + rest), iface) == WpaEvent(Disconnected, iface, 0, 0)
    ensures ParseEvent("<3>" + ("CTRL-EVENT-SIGNAL-CHANGE " + rest), iface).kind == SignalChange
    ensures ParseEvent("<3>" + ("CTRL-EVENT-TERMINATING " + rest), iface) == WpaEvent(Terminating, iface, 0, 0)
  {
    OneText("CTRL-EVENT-CONNECTED ", rest, iface);
    OneText("CTRL-EVENT-DISCONNECTED ", rest, iface);
    OneText("CTRL-EVENT-SIGNAL-CHANGE ", rest, iface);
    OneText("CTRL-EVENT-TERMINATING ", rest, iface);
  }

  lemma OneText(event: string, rest: string, iface: string)
    ensures StripPriority("<3>" + (event + rest)) == event + rest && event <= event + rest
    ensures var e, msg := ParseEvent("<3>" + (event + rest), iface), event + rest;
      && (e.kind == Connected <==> EVENT_CONNECTED <= msg)
      && (e.kind == Disconnected <==> EVENT_DISCONNECTED <= msg)
      && (e.kind == SignalChange <==> EVENT_SIGNAL_CHANGE <= msg)
      && (e.kind == Terminating <==> EVENT_TERMINATING <= msg)
      && e.iface == iface && (e.kind != SignalChange ==> e.rssi == e.avgRssi == 0)
  {
    assert "<" + "3" + ">" + (event + rest) == "<3>" + (event + rest);
    StripsPriority("3", event + rest);
    EventKinds("<3>" + (event + rest), iface);
  }

  /**
   A report of a connection carries no signal strength, so the thresholds alone decide where the machine goes from a
   down state: to PathUp if warn is at most 0, to PathDegraded if only drop is, to PathDown otherwise.
   */
  lemma MonitorLifts(priority: string, rest: string, iface: string, s: PathState, t: RssiThresholds)
    requires AllDigits(priority) && IsDownState(s)
    ensures var next := NextState(s, ParseEvent("<" + priority + ">" + EVENT_CONNECTED + rest, iface), t);
      && (next == PathUp <==> t.warn <= 0)
      && (next == PathDegraded <==> t.drop <= 0 < t.warn)
      && (next == PathDown <==> t.warn > 0 && t.drop > 0)
  {
    var raw := "<" + priority + ">" + EVENT_CONNECTED + rest;
    assert raw == "<" + priority + ">" + (EVENT_CONNECTED + rest);
    StripsPriority(priority, EVENT_CONNECTED + rest);
    EventKinds(raw, iface);
  }
}
