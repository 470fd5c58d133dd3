/** The download client's HTTP header parser, and when its answer depends on how the stream arrived. */
module HttpHeader {
  import opened Types
  import opened Strings

  const CRLF := "\r\n"
  const BLANK_LINE := "\r\n\r\n"
  const CONTENT_LENGTH := "Content-Length:"

  /** `Throws` stands for an uncaught exception of a number conversion. */
  datatype Header = Incomplete | Throws | Parsed(bodyStart: nat, status: int, contentLength: nat)

  predicate IsSpace(c: char) {
    c == ' ' || c == '\t' || c == '\n' || c == '\r' || c as int == 11 || c as int == 12
  }

  ghost predicate AllSpace(s: string) {
    forall i :: 0 <= i < |s| ==> IsSpace(s[i])
  }

  function ScanDigits(u: string): Option<nat> {
    var n := LeadingDigits(u);
    if n == 0 then None else Some(NatValue(u[..n]))
  }

  /** An optional sign and digits: whether negative, and the magnitude; nothing without a digit. */
  function ScanToken(t: string): Option<(bool, nat)> {
    var signed := t != "" && (t[0] == '-' || t[0] == '+');
    match ScanDigits(if signed then t[1..] else t)
    case None => None
    case Some(m) => Some((signed && t[0] == '-', m))
  }

  /** Leading white space is skipped first. */
  function ScanNumber(s: string): Option<(bool, nat)> {
    if s != "" && IsSpace(s[0]) then ScanNumber(s[1..]) else ScanToken(s)
  }

  /** Conversion to a signed 32-bit number; None is an exception. */
  function Stoi(s: string): Option<int> {
    match ScanNumber(s)
    case None => None
    case Some((negative, m)) =>
      var v: int := m;
      var x := if negative then -v else v;
      if -0x8000_0000 <= x < 0x8000_0000 then Some(x) else None
  }

  /** Conversion to an unsigned 64-bit number; a minus sign negates modulo 2^64. */
  function Stoull(s: string): Option<nat> {
    match ScanNumber(s)
    case None => None
    case Some((negative, m)) =>
      if m >= TWO64 then None
      else if negative && m > 0 then Some(TWO64 - m)
      else Some(m)
  }

  /** The first position at or after `from` that is neither space nor tab. */
  function FirstNonBlank(s: string, from: nat): (r: Option<nat>)
    ensures r.Some? ==> from <= r.value < |s| && s[r.value] != ' ' && s[r.value] != '\t'
    ensures r.Some? ==> forall k :: from <= k < r.value ==> s[k] == ' ' || s[k] == '\t'
    ensures r.None? ==> forall k :: from <= k < |s| ==> s[k] == ' ' || s[k] == '\t'
    decreases |s| - from
  {
    if from >= |s| then None
    else if s[from] != ' ' && s[from] != '\t' then Some(from)
    else FirstNonBlank(s, from + 1)
  }

  /** At most `len` characters from `start`. */
  function Sub(s: string, start: nat, len: nat): string
    requires start <= |s|
  {
    if start + len <= |s| then s[start..start + len] else s[start..]
  }

  /** The status code of the first line, once the line is there. */
  function ParseStatus(buf: string): Option<Option<int>> {
    match Find(buf, CRLF, 0)
    case None => None
    case Some(eol) =>
      match Find(buf[..eol], " ", 0)
      case None => None
      case Some(sp) => Some(Stoi(Sub(buf[..eol], sp + 1, 3)))
  }

  /** The length named after the first occurrence of the key before the end of the header; 0 without one. */
  function ParseLength(buf: string, hdrEnd: nat): Option<nat> {
    match Find(buf, CONTENT_LENGTH, 0)
    case None => Some(0)
    case Some(c) =>
      if c >= hdrEnd then Some(0)
      else
        match FirstNonBlank(buf, c + 15)
        case None => Some(0)
        case Some(v) => Stoull(Sub(buf, v, 20))
  }

  function ParseHttpHeader(buf: string): Header {
    match ParseStatus(buf)
    case None => Incomplete
    case Some(None) => Throws
    case Some(Some(status)) =>
      match Find(buf, BLANK_LINE, 0)
      case None => Incomplete
      case Some(hdrEnd) =>
        match ParseLength(buf, hdrEnd)
        case None => Throws
        case Some(n) => Parsed(hdrEnd + 4, status, n)
  }

  // ---- numbers cut off by what follows ----

  lemma {:induction false} LeadingDigitsMore(u: string, more: string)
    requires LeadingDigits(u) < |u|
    ensures LeadingDigits(u + more) == LeadingDigits(u)
  {
    assert (u + more)[0] == u[0];
    if IsDigit(u[0]) {
      assert (u + more)[1..] == u[1..] + more;
      LeadingDigitsMore(u[1..], more);
    }
  }

  lemma DigitsStable(u: string, more: string)
    requires u != "" && !IsDigit(u[|u| - 1])
    ensures ScanDigits(u + more) == ScanDigits(u)
  {
    var n := LeadingDigits(u);
    assert u[..n] == u || n < |u|;
    LeadingDigitsMore(u, more);
    assert (u + more)[..n] == u[..n];
  }

  /** A character after which no number can go on: neither a digit nor a sign. */
  predicate Stops(c: char) {
    !IsDigit(c) && c != '-' && c != '+'
  }

  lemma TokenStable(t: string, more: string)
    requires t != "" && !IsSpace(t[0]) && Stops(t[|t| - 1])
    ensures ScanToken(t + more) == ScanToken(t)
  {
    assert (t + more)[0] == t[0];
    if t[0] == '-' || t[0] == '+' {
      assert (t + more)[1..] == t[1..] + more;
      DigitsStable(t[1..], more);
    } else {
      DigitsStable(t, more);
    }
  }

  /** A text with something in it that ends where no number can go on converts the same whatever follows. */
  lemma {:induction false} NumberStable(w: string, more: string)
    requires !AllSpace(w) && Stops(w[|w| - 1])
    ensures ScanNumber(w + more) == ScanNumber(w)
  {
    assert (w + more)[0] == w[0];
    if IsSpace(w[0]) {
      assert (w + more)[1..] == w[1..] + more;
      assert !AllSpace(w[1..]) by {
        var i :| 0 <= i < |w| && !IsSpace(w[i]);
        assert w[1..][i - 1] == w[i];
      }
      NumberStable(w[1..], more);
    } else {
      TokenStable(w, more);
    }
  }

  lemma {:induction false} BlankIsNoNumber(w: string)
    requires AllSpace(w)
    ensures ScanNumber(w) == None
  {
    if w != "" { BlankIsNoNumber(w[1..]); }
  }

  lemma {:induction false} BlankThenDigit(w: string, d: char)
    requires AllSpace(w) && IsDigit(d)
    ensures ScanNumber(w + [d]) == Some((false, DigitValue(d)))
  {
    if w == "" {
      assert w + [d] == [d] + "" && [d][..0] == "";
      DigitsScanned([d], "");
    } else {
      assert (w + [d])[1..] == w[1..] + [d];
      BlankThenDigit(w[1..], d);
    }
  }

  // ---- a complete header ----

  /** `h` ends with its first blank line. */
  ghost predicate Complete(h: string) {
    |h| >= 4 && Find(h, BLANK_LINE, 0) == Some(|h| - 4)
  }

  ghost predicate HasStatus(h: string) {
    ParseStatus(h).Some? && ParseStatus(h).value.Some?
  }

  /**
   The first `Content-Length:` of the header is followed by nothing but white space up to the header's end, and the
   20 characters the parser looks at reach beyond it.
   */
  ghost predicate Dangling(h: string) {
    && Complete(h)
    && HasStatus(h)
    && var c := Find(h, CONTENT_LENGTH, 0);
       && c.Some? && c.value < |h| - 4
       && var v := FirstNonBlank(h, c.value + 15);
          v.Some? && v.value + 20 > |h| && AllSpace(h[v.value..])
  }

  lemma StatusStable(h: string, body: string)
    requires Find(h, CRLF, 0).Some?
    ensures ParseStatus(h + body) == ParseStatus(h)
  {
    FindStable(h, body, CRLF, 0);
    var eol := Find(h, CRLF, 0).value;
    assert (h + body)[..eol] == h[..eol];
  }

  lemma BlankLineHasCrlf(h: string)
    requires Complete(h)
    ensures Find(h, CRLF, 0).Some?
    ensures h[|h| - 4] == '\r' && h[|h| - 3] == '\n' && h[|h| - 2] == '\r' && h[|h| - 1] == '\n'
  {
    var e := |h| - 4;
    assert h[e + 0] == BLANK_LINE[0] && h[e + 1] == BLANK_LINE[1];
    assert h[e + 2] == BLANK_LINE[2] && h[e + 3] == BLANK_LINE[3];
    assert MatchAt(h, CRLF, e);
  }

  /** The key holds no carriage return, so an occurrence that starts inside the header lies inside it. */
  lemma KeyStaysInside(h: string, body: string, c: nat)
    requires Complete(h) && c < |h| - 4
    ensures MatchAt(h + body, CONTENT_LENGTH, c) <==> MatchAt(h, CONTENT_LENGTH, c)
    ensures MatchAt(h, CONTENT_LENGTH, c) ==> c + 15 <= |h| - 4
  {
    var s := h + body;
    BlankLineHasCrlf(h);
    assert forall i :: 0 <= i < |h| ==> s[i] == h[i];
    var r := |h| - 4 - c;
    assert s[c + r] == '\r' && h[c + r] == '\r';
    assert r < 15 ==> CONTENT_LENGTH[r] != '\r';
  }

  lemma KeyStable(h: string, body: string)
    requires Complete(h)
    ensures var a, b := Find(h, CONTENT_LENGTH, 0), Find(h + body, CONTENT_LENGTH, 0);
      if a.Some? && a.value < |h| - 4 then b == a else b.None? || b.value >= |h| - 4
  {
    var a, b := Find(h, CONTENT_LENGTH, 0), Find(h + body, CONTENT_LENGTH, 0);
    if a.Some? && a.value < |h| - 4 {
      FindStable(h, body, CONTENT_LENGTH, 0);
    } else {
      forall j | 0 <= j < |h| - 4 ensures !MatchAt(h + body, CONTENT_LENGTH, j) {
        KeyStaysInside(h, body, j);
      }
    }
  }

  lemma NonBlankStable(h: string, body: string, from: nat)
    requires Complete(h) && from <= |h| - 4
    ensures FirstNonBlank(h, from).Some? && FirstNonBlank(h + body, from) == FirstNonBlank(h, from)
    ensures FirstNonBlank(h, from).value <= |h| - 4
  {
    BlankLineHasCrlf(h);
    var a, b := FirstNonBlank(h, from), FirstNonBlank(h + body, from);
    assert (h + body)[|h| - 4] == '\r';
    var v, w := a.value, b.value;
    assert (h + body)[v] == h[v];
    assert w < |h| ==> (h + body)[w] == h[w];
  }

  lemma SubExtends(h: string, body: string, v: nat) returns (more: string)
    requires v <= |h| < v + 20
    ensures Sub(h, v, 20) == h[v..] && Sub(h + body, v, 20) == h[v..] + more
  {
    more := Sub(body, 0, 20 - (|h| - v));
  }

  /** The 20-character window either ends with the header or converts by what the header holds of it. */
  lemma WindowStable(h: string, body: string, v: nat)
    requires Complete(h) && v <= |h| - 4
    requires v + 20 <= |h| || !AllSpace(h[v..])
    ensures ScanNumber(Sub(h + body, v, 20)) == ScanNumber(Sub(h, v, 20))
  {
    if v + 20 <= |h| {
      assert (h + body)[v..v + 20] == h[v..v + 20];
    } else {
      BlankLineHasCrlf(h);
      var more := SubExtends(h, body, v);
      NumberStable(h[v..], more);
    }
  }

  lemma LengthAt(buf: string, hdrEnd: nat, c: nat, v: nat)
    requires Find(buf, CONTENT_LENGTH, 0) == Some(c) && c < hdrEnd && FirstNonBlank(buf, c + 15) == Some(v)
    ensures v < |buf| && ParseLength(buf, hdrEnd) == Stoull(Sub(buf, v, 20))
  {}

  lemma NoLength(buf: string, hdrEnd: nat)
    requires var c := Find(buf, CONTENT_LENGTH, 0); c.None? || c.value >= hdrEnd
    ensures ParseLength(buf, hdrEnd) == Some(0)
  {}

  /** The number the parser sees at `v` does not dangle. */
  lemma DanglesAt(h: string, c: nat, v: nat)
    requires Complete(h) && HasStatus(h)
    requires Find(h, CONTENT_LENGTH, 0) == Some(c) && c < |h| - 4 && FirstNonBlank(h, c + 15) == Some(v)
    ensures Dangling(h) <==> v + 20 > |h| && AllSpace(h[v..])
  {}

  /** Reading past the header end changes the length only when the value dangles. */
  lemma LengthStable(h: string, body: string)
    requires Complete(h) && HasStatus(h) && !Dangling(h)
    ensures ParseLength(h + body, |h| - 4) == ParseLength(h, |h| - 4)
  {
    KeyStable(h, body);
    var found := Find(h, CONTENT_LENGTH, 0);
    if found.Some? && found.value < |h| - 4 {
      LengthStableAt(h, body, found.value);
    } else {
      NoLength(h, |h| - 4);
      NoLength(h + body, |h| - 4);
    }
  }

  /** Where the parser looks for the number, in the header alone and with a body. */
  lemma ValueAt(h: string, body: string, c: nat) returns (v: nat)
    requires Complete(h) && c < |h| - 4
    requires Find(h, CONTENT_LENGTH, 0) == Find(h + body, CONTENT_LENGTH, 0) == Some(c)
    ensures c + 15 <= v <= |h| - 4 && FirstNonBlank(h, c + 15) == Some(v)
    ensures ParseLength(h, |h| - 4) == Stoull(Sub(h, v, 20))
    ensures ParseLength(h + body, |h| - 4) == Stoull(Sub(h + body, v, 20))
  {
    KeyStaysInside(h, body, c);
    NonBlankStable(h, body, c + 15);
    v := FirstNonBlank(h, c + 15).value;
    LengthAt(h, |h| - 4, c, v);
    LengthAt(h + body, |h| - 4, c, v);
  }

  lemma SameNumber(a: string, b: string)
    requires ScanNumber(a) == ScanNumber(b)
    ensures Stoull(a) == Stoull(b)
  {}

  lemma LengthStableAt(h: string, body: string, c: nat)
    requires Complete(h) && HasStatus(h) && !Dangling(h)
    requires Find(h, CONTENT_LENGTH, 0) == Find(h + body, CONTENT_LENGTH, 0) == Some(c) && c < |h| - 4
    ensures ParseLength(h + body, |h| - 4) == ParseLength(h, |h| - 4)
  {
    var v := ValueAt(h, body, c);
    DanglesAt(h, c, v);
    WindowStable(h, body, v);
    SameNumber(Sub(h + body, v, 20), Sub(h, v, 20));
  }

  lemma DanglingParts(h: string) returns (c: nat, v: nat)
    requires Dangling(h)
    ensures Find(h, CONTENT_LENGTH, 0) == Some(c) && c < |h| - 4 && FirstNonBlank(h, c + 15) == Some(v)
    ensures v + 20 > |h| && AllSpace(h[v..])
  {
    c := Find(h, CONTENT_LENGTH, 0).value;
    v := FirstNonBlank(h, c + 15).value;
  }

  lemma DanglingNumber(w: string, d: char)
    requires AllSpace(w) && IsDigit(d)
    ensures Stoull(w) == None && Stoull(w + [d]) == Some(DigitValue(d))
  {
    BlankIsNoNumber(w);
    BlankThenDigit(w, d);
  }

  lemma BlankReadsBody(h: string, d: char, c: nat, v: nat)
    requires Complete(h) && IsDigit(d) && c < |h| - 4
    requires Find(h, CONTENT_LENGTH, 0) == Some(c) && FirstNonBlank(h, c + 15) == Some(v)
    requires v <= |h| < v + 20 && AllSpace(h[v..])
    ensures ParseLength(h, |h| - 4) == None
    ensures ParseLength(h + [d], |h| - 4) == Some(DigitValue(d))
  {
    FindStable(h, [d], CONTENT_LENGTH, 0);
    var v' := ValueAt(h, [d], c);
    DanglingNumber(h[v..], d);
    assert Sub(h + [d], v, 20) == h[v..] + [d] && Sub(h, v, 20) == h[v..];
  }

  lemma DanglingReadsBody(h: string, d: char)
    requires Dangling(h) && IsDigit(d)
    ensures ParseLength(h, |h| - 4) == None
    ensures ParseLength(h + [d], |h| - 4) == Some(DigitValue(d))
  {
    var c, v := DanglingParts(h);
    BlankReadsBody(h, d, c, v);
  }

  lemma BlankLineStable(h: string, body: string)
    requires Complete(h)
    ensures Find(h + body, BLANK_LINE, 0) == Some(|h| - 4)
  {
    FindStable(h, body, BLANK_LINE, 0);
  }

  lemma HeaderStable(h: string, body: string)
    requires Complete(h) && !Dangling(h)
    ensures ParseHttpHeader(h + body) == ParseHttpHeader(h)
  {
    BlankLineHasCrlf(h);
    StatusStable(h, body);
    BlankLineStable(h, body);
    if HasStatus(h) { LengthStable(h, body); }
  }

  /** A dangling header alone makes the parser throw; read with a digit of the body, it yields that digit. */
  lemma DanglingAnswers(h: string, d: char)
    requires Dangling(h) && IsDigit(d)
    ensures ParseHttpHeader(h) == Throws
    ensures ParseHttpHeader(h + [d]) == Parsed(|h|, ParseStatus(h).value.value, DigitValue(d))
  {
    BlankLineHasCrlf(h);
    StatusStable(h, [d]);
    BlankLineStable(h, [d]);
    DanglingReadsBody(h, d);
  }

  /**
   The parser's answer is the same however much of the body arrived with the header, for every body, exactly when the
   header's length value does not dangle.
   */
  lemma HeaderStableIff(h: string)
    requires Complete(h)
    ensures (forall body: string :: ParseHttpHeader(h + body) == ParseHttpHeader(h)) <==> !Dangling(h)
  {
    if Dangling(h) {
      DanglingAnswers(h, '1');
      assert ParseHttpHeader(h + ['1']) != ParseHttpHeader(h);
    } else {
      forall body: string ensures ParseHttpHeader(h + body) == ParseHttpHeader(h) {
        HeaderStable(h, body);
      }
    }
  }

  // ---- whole streams ----

  /** What any reader should make of a stream: its header alone, or all of it while the header is not complete. */
  function HeaderOf(stream: string): Header {
    match Find(stream, BLANK_LINE, 0)
    case None => ParseHttpHeader(stream)
    case Some(e) => ParseHttpHeader(stream[..e + 4])
  }

  ghost predicate DanglingStream(stream: string) {
    var e := Find(stream, BLANK_LINE, 0);
    e.Some? && Dangling(stream[..e.value + 4])
  }

  lemma CutIsComplete(stream: string)
    requires Find(stream, BLANK_LINE, 0).Some?
    ensures Complete(stream[..Find(stream, BLANK_LINE, 0).value + 4])
  {
    var e := Find(stream, BLANK_LINE, 0).value;
    var h := stream[..e + 4];
    assert forall i :: 0 <= i < |h| ==> h[i] == stream[i];
    assert MatchAt(h, BLANK_LINE, e);
    forall j | 0 <= j < e ensures !MatchAt(h, BLANK_LINE, j) {
      assert !MatchAt(stream, BLANK_LINE, j);
      assert MatchAt(h, BLANK_LINE, j) ==> MatchAt(stream, BLANK_LINE, j);
    }
    FindIs(h, BLANK_LINE, 0, e);
  }

  /** Before the header is complete the parser either waits or throws, and it throws only if it always will. */
  lemma PartialHeader(part: string, more: string)
    requires Find(part, BLANK_LINE, 0).None?
    ensures ParseHttpHeader(part) == Incomplete || ParseHttpHeader(part) == ParseHttpHeader(part + more) == Throws
  {
    if Find(part, CRLF, 0).Some? {
      StatusStable(part, more);
    }
  }

  lemma NoBlankLineYet(stream: string, n: nat)
    requires n <= |stream|
    requires var e := Find(stream, BLANK_LINE, 0); e.None? || n < e.value + 4
    ensures Find(stream[..n], BLANK_LINE, 0).None?
  {
    var part := stream[..n];
    assert forall i :: 0 <= i < n ==> part[i] == stream[i];
    forall j: nat ensures !MatchAt(part, BLANK_LINE, j) {
      assert MatchAt(part, BLANK_LINE, j) ==> MatchAt(stream, BLANK_LINE, j);
    }
  }

  lemma JoinAt(s: string, k: nat, n: nat)
    requires k <= n <= |s|
    ensures s[..k] + s[k..n] == s[..n]
  {}

  lemma CutDoesNotDangle(stream: string, e: nat)
    requires Find(stream, BLANK_LINE, 0) == Some(e) && !DanglingStream(stream)
    ensures Complete(stream[..e + 4]) && !Dangling(stream[..e + 4])
  {
    CutIsComplete(stream);
  }

  lemma HeaderOfCut(stream: string, e: nat)
    requires Find(stream, BLANK_LINE, 0) == Some(e)
    ensures HeaderOf(stream) == ParseHttpHeader(stream[..e + 4])
  {}

  lemma PrefixBeyondHeader(stream: string, e: nat, n: nat)
    requires Find(stream, BLANK_LINE, 0) == Some(e) && e + 4 <= n <= |stream| && !DanglingStream(stream)
    ensures ParseHttpHeader(stream[..n]) == HeaderOf(stream)
  {
    CutDoesNotDangle(stream, e);
    HeaderOfCut(stream, e);
    JoinAt(stream, e + 4, n);
    var h, body, whole := stream[..e + 4], stream[e + 4..n], stream[..n];
    HeaderStable(h, body);
    assert whole == h + body;
    assert ParseHttpHeader(whole) == ParseHttpHeader(h);
  }

  lemma PrefixWithin(stream: string, n: nat, m: nat)
    requires n <= m <= |stream| && Find(stream[..n], BLANK_LINE, 0).None?
    ensures ParseHttpHeader(stream[..n]) == Incomplete || ParseHttpHeader(stream[..n]) == ParseHttpHeader(stream[..m])
  {
    PartialHeader(stream[..n], stream[n..m]);
    assert stream[..n] + stream[n..m] == stream[..m];
  }

  /** Whatever has been buffered: the parser waits, or it answers what the stream's header says. */
  lemma PrefixOutcome(stream: string, n: nat)
    requires n <= |stream| && !DanglingStream(stream)
    ensures ParseHttpHeader(stream[..n]) == Incomplete || ParseHttpHeader(stream[..n]) == HeaderOf(stream)
  {
    match Find(stream, BLANK_LINE, 0)
    case Some(e) =>
      if n >= e + 4 {
        PrefixBeyondHeader(stream, e, n);
      } else {
        NoBlankLineYet(stream, n);
        PrefixWithin(stream, n, e + 4);
      }
    case None =>
      NoBlankLineYet(stream, n);
      PrefixWithin(stream, n, |stream|);
      assert stream[..|stream|] == stream;
  }

  // ---- well-formed headers are read correctly ----

  lemma {:induction false} NatValueBound(ds: string, k: nat)
    requires AllDigits(ds) && |ds| <= k
    ensures NatValue(ds) < Pow10(k)
  {
    if ds != "" {
      NatValueBound(ds[..|ds| - 1], k - 1);
    } else {
      Pow10Positive(k);
    }
  }

  function Pow10(k: nat): nat {
    if k == 0 then 1 else 10 * Pow10(k - 1)
  }

  lemma {:induction false} Pow10Positive(k: nat)
    ensures Pow10(k) > 0
  {
    if k > 0 { Pow10Positive(k - 1); }
  }

  lemma DigitsScanned(ds: string, rest: string)
    requires ds != "" && AllDigits(ds) && (rest == "" || !IsDigit(rest[0]))
    ensures ScanNumber(ds + rest) == Some((false, NatValue(ds)))
  {
    var s := ds + rest;
    assert s[0] == ds[0] && !IsSpace(s[0]);
    LeadingDigitsOf(ds, rest);
    assert s[..|ds|] == ds;
  }

  // ---- every form of number ----

  /** White space is the space and the characters from tab to carriage return. */
  lemma SpacesAre(c: char)
    ensures IsSpace(c) <==> c as int == 32 || 9 <= c as int <= 13
  {
    assert '\t' as int == 9 && '\n' as int == 10 && '\r' as int == 13 && ' ' as int == 32;
  }

  lemma {:induction false} SpacesSkipped(ws: string, t: string)
    requires AllSpace(ws)
    ensures ScanNumber(ws + t) == ScanNumber(t)
  {
    if ws == "" {
      assert ws + t == t;
    } else {
      assert (ws + t)[0] == ws[0] && (ws + t)[1..] == ws[1..] + t;
      SpacesSkipped(ws[1..], t);
    }
  }

  lemma SignedScanned(sign: string, ds: string, rest: string)
    requires sign in {"", "+", "-"} && ds != "" && AllDigits(ds) && (rest == "" || !IsDigit(rest[0]))
    ensures ScanNumber(sign + (ds + rest)) == Some((sign == "-", NatValue(ds)))
  {
    if sign == "" {
      assert sign + (ds + rest) == ds + rest;
      DigitsScanned(ds, rest);
    } else {
      SignThenDigits(sign[0], ds, rest);
      assert [sign[0]] == sign;
    }
  }

  lemma DigitsOf(ds: string, rest: string)
    requires ds != "" && AllDigits(ds) && (rest == "" || !IsDigit(rest[0]))
    ensures ScanDigits(ds + rest) == Some(NatValue(ds))
  {
    LeadingDigitsOf(ds, rest);
    assert (ds + rest)[..|ds|] == ds;
  }

  lemma SignThenDigits(sign: char, ds: string, rest: string)
    requires (sign == '+' || sign == '-') && ds != "" && AllDigits(ds) && (rest == "" || !IsDigit(rest[0]))
    ensures ScanNumber([sign] + (ds + rest)) == Some((sign == '-', NatValue(ds)))
  {
    var t := [sign] + (ds + rest);
    assert t[0] == sign && t[1..] == ds + rest && !IsSpace(sign);
    DigitsOf(ds, rest);
    assert ScanToken(t) == Some((sign == '-', NatValue(ds)));
  }

  /**
   What the two conversions make of white space, a sign, digits and anything else: the number as it stands; for the
   unsigned one a minus sign counts back from 2^64; nothing if it is out of range.
   */
  lemma NumberForms(ws: string, sign: string, ds: string, rest: string)
    requires AllSpace(ws) && sign in {"", "+", "-"} && ds != "" && AllDigits(ds) && (rest == "" || !IsDigit(rest[0]))
    ensures var s, m: int := ws + (sign + (ds + rest)), NatValue(ds);
      && (Stoull(s) == if m >= 0x1_0000_0000_0000_0000 then None
                       else if sign == "-" && m > 0 then Some(0x1_0000_0000_0000_0000 - m) else Some(m))
      && (Stoi(s) == if sign == "-" then (if m <= 0x8000_0000 then Some(-m) else None)
                     else if m < 0x8000_0000 then Some(m) else None)
  {
    SpacesSkipped(ws, sign + (ds + rest));
    SignedScanned(sign, ds, rest);
  }

  /** Without a digit after the white space and the sign there is no number. */
  lemma NoNumberForms(ws: string, sign: string, rest: string)
    requires AllSpace(ws) && sign in {"", "+", "-"} && (rest == "" || !IsDigit(rest[0]))
    requires sign == "" && rest != "" ==> !IsSpace(rest[0]) && rest[0] != '+' && rest[0] != '-'
    ensures Stoull(ws + (sign + rest)) == None && Stoi(ws + (sign + rest)) == None
  {
    SpacesSkipped(ws, sign + rest);
    if sign == "" {
      assert sign + rest == rest;
    } else {
      assert (sign + rest)[0] == sign[0] && (sign + rest)[1..] == rest;
    }
  }

  lemma CodeRead(code: string)
    requires |code| == 3 && AllDigits(code)
    ensures Stoi(code) == Some(NatValue(code))
  {
    assert code + "" == code;
    DigitsScanned(code, "");
    NatValueBound(code, 3);
    assert Pow10(3) == 1000;
  }

  lemma StatusRead(h: string, eol: nat, sp: nat)
    requires Find(h, CRLF, 0) == Some(eol) && eol <= |h| && Find(h[..eol], " ", 0) == Some(sp)
    requires sp + 4 <= eol && AllDigits(h[sp + 1..sp + 4])
    ensures ParseStatus(h) == Some(Some(NatValue(h[sp + 1..sp + 4])))
  {
    CodeRead(h[sp + 1..sp + 4]);
    SubOfLine(h, eol, sp + 1);
  }

  lemma SubOfLine(h: string, eol: nat, start: nat)
    requires start + 3 <= eol <= |h|
    ensures Sub(h[..eol], start, 3) == h[start..start + 3]
  {}

  /** Digits are read up to the end of the 20-character window; what they say must fit 64 bits. */
  function Converted(ds: string): Option<nat>
    requires AllDigits(ds)
  {
    var read := if |ds| <= 20 then ds else ds[..20];
    if NatValue(read) < TWO64 then Some(NatValue(read)) else None
  }

  lemma LengthRead(h: string, v: nat, n: nat)
    requires v < n < |h| && AllDigits(h[v..n]) && !IsDigit(h[n])
    ensures Stoull(Sub(h, v, 20)) == Converted(h[v..n])
  {
    var window := Sub(h, v, 20);
    var k := if n - v <= 20 then n - v else 20;
    var digits, rest := h[v..v + k], window[k..];
    assert AllDigits(digits) by {
      assert forall i :: 0 <= i < k ==> digits[i] == h[v..n][i];
    }
    assert n - v > 20 ==> h[v..n][..20] == digits;
    assert rest != "" ==> rest[0] == h[n];
    assert window == digits + rest;
    DigitsScanned(digits, rest);
  }

  /**
   A header with a three-digit code after the first space and digits after the first `Content-Length:` is read as what
   it says, cut to 20 digits, and does not dangle. Digits that then exceed 64 bits make the parser throw.
   */
  lemma WellFormedRead(h: string, eol: nat, sp: nat, c: nat, v: nat, n: nat)
    requires Complete(h)
    requires Find(h, CRLF, 0) == Some(eol) && eol <= |h| && Find(h[..eol], " ", 0) == Some(sp)
    requires sp + 4 <= eol && AllDigits(h[sp + 1..sp + 4])
    requires Find(h, CONTENT_LENGTH, 0) == Some(c) && c + 15 <= v < n <= |h| - 4
    requires forall k :: c + 15 <= k < v ==> h[k] == ' ' || h[k] == '\t'
    requires AllDigits(h[v..n]) && !IsDigit(h[n])
    ensures ParseHttpHeader(h)
         == match Converted(h[v..n])
            case Some(length) => Parsed(|h|, NatValue(h[sp + 1..sp + 4]), length)
            case None => Throws
    ensures !Dangling(h)
  {
    StatusRead(h, eol, sp);
    FieldFound(h, c, v, n);
    FieldRead(h, c, v, n);
    HeaderRead(h, NatValue(h[sp + 1..sp + 4]), Converted(h[v..n]));
  }

  lemma HeaderRead(h: string, status: int, length: Option<nat>)
    requires Complete(h) && ParseStatus(h) == Some(Some(status)) && ParseLength(h, |h| - 4) == length
    ensures ParseHttpHeader(h) == if length.Some? then Parsed(|h|, status, length.value) else Throws
  {}

  lemma FieldFound(h: string, c: nat, v: nat, n: nat)
    requires c + 15 <= v < n <= |h| && AllDigits(h[v..n])
    requires forall k :: c + 15 <= k < v ==> h[k] == ' ' || h[k] == '\t'
    ensures FirstNonBlank(h, c + 15) == Some(v) && !AllSpace(h[v..])
  {
    assert h[v] == h[v..n][0] && IsDigit(h[v]);
    NonBlankAt(h, c + 15, v);
    assert h[v..][0] == h[v];
  }

  lemma FieldRead(h: string, c: nat, v: nat, n: nat)
    requires Complete(h) && HasStatus(h)
    requires Find(h, CONTENT_LENGTH, 0) == Some(c) && c + 15 <= v < n <= |h| - 4
    requires FirstNonBlank(h, c + 15) == Some(v) && !AllSpace(h[v..])
    requires AllDigits(h[v..n]) && !IsDigit(h[n])
    ensures ParseLength(h, |h| - 4) == Converted(h[v..n])
    ensures !Dangling(h)
  {
    LengthRead(h, v, n);
    LengthAt(h, |h| - 4, c, v);
    DanglesAt(h, c, v);
  }

  lemma NonBlankAt(s: string, from: nat, v: nat)
    requires from <= v < |s| && s[v] != ' ' && s[v] != '\t'
    requires forall k :: from <= k < v ==> s[k] == ' ' || s[k] == '\t'
    ensures FirstNonBlank(s, from) == Some(v)
  {}

  /** When the first `Content-Length:` is followed by the blank line at once, the answer does depend on the body. */
  lemma BareKeyDangles(h: string, c: nat)
    requires Complete(h) && HasStatus(h) && Find(h, CONTENT_LENGTH, 0) == Some(c) && |h| == c + 19
    ensures Dangling(h)
  {
    BlankLineHasCrlf(h);
    SpaceAtEnd(h, c + 15);
    NonBlankAt(h, c + 15, c + 15);
    DanglesAt(h, c, c + 15);
  }

  lemma SpaceAtEnd(h: string, e: nat)
    requires |h| == e + 4 && h[e] == '\r' && h[e + 1] == '\n' && h[e + 2] == '\r' && h[e + 3] == '\n'
    ensures AllSpace(h[e..])
  {
    assert h[e..] == [h[e], h[e + 1], h[e + 2], h[e + 3]];
  }
}
