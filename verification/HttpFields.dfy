/** Well-formed response headers, and whether the parser reads the length they declare. */
module HttpFields {
  import opened Types
  import opened Strings
  import opened HttpHeader

  // ---- the grammar: a status line, field lines, an empty line ----

  predicate IsLetter(c: char) {
    'A' <= c <= 'Z' || 'a' <= c <= 'z'
  }

  predicate TokenChar(c: char) {
    IsLetter(c) || IsDigit(c)
    || c in {'!', '#', '$', '%', '&', '\'', '*', '+', '-', '.', '^', '_', '`', '|', '~'}
  }

  ghost predicate Token(s: string) {
    s != "" && forall i :: 0 <= i < |s| ==> TokenChar(s[i])
  }

  /** Bytes allowed in field values and reason phrases: visible, blank, or above ASCII. */
  predicate TextChar(c: char) {
    c == '\t' || (' ' <= c && c as int != 127)
  }

  ghost predicate Text(s: string) {
    forall i :: 0 <= i < |s| ==> TextChar(s[i])
  }

  /** Section 4 of RFC 9112: the version, a three-digit code and a reason phrase. */
  ghost predicate StatusLine(l: string) {
    && |l| >= 13 && l[..9] == "HTTP/1.1 " && AllDigits(l[9..12]) && l[12] == ' ' && Text(l[13..])
  }

  /** Section 5 of RFC 9112: a name, a colon and a value. */
  ghost predicate FieldLine(l: string) {
    exists colon :: 0 < colon < |l| && l[colon] == ':' && Token(l[..colon]) && Text(l[colon + 1..])
  }

  ghost predicate HeaderLines(ls: seq<string>) {
    ls != [] && StatusLine(ls[0]) && forall i :: 1 <= i < |ls| ==> FieldLine(ls[i])
  }

  function Lines(ls: seq<string>): string {
    if ls == [] then "" else ls[0] + CRLF + Lines(ls[1..])
  }

  function Head(ls: seq<string>): string {
    Lines(ls) + CRLF
  }

  ghost predicate WellFormed(h: string) {
    exists ls :: HeaderLines(ls) && h == Head(ls)
  }

  // ---- lines in the text ----

  ghost predicate OneLine(l: string) {
    l != "" && forall i :: 0 <= i < |l| ==> l[i] != '\r' && l[i] != '\n'
  }

  lemma StatusIsOneLine(l: string)
    requires StatusLine(l)
    ensures OneLine(l) && Find(l, " ", 0) == Some(8)
  {
    var version := "HTTP/1.1 ";
    assert forall i :: 0 <= i < 9 ==> l[i] == version[i];
    assert forall i :: 9 <= i < 12 ==> l[i] == l[9..12][i - 9];
    assert forall i :: 13 <= i < |l| ==> l[i] == l[13..][i - 13];
    assert l[8 + 0] == ' ' && MatchAt(l, " ", 8);
    forall j | 0 <= j < 8 ensures !MatchAt(l, " ", j) {
      assert l[j + 0] == version[j] && version[j] != ' ' && " "[0] == ' ';
    }
    FindIs(l, " ", 0, 8);
  }

  lemma FieldIsOneLine(l: string)
    requires FieldLine(l)
    ensures OneLine(l)
  {
    var colon :| 0 < colon < |l| && l[colon] == ':' && Token(l[..colon]) && Text(l[colon + 1..]);
    assert forall i :: 0 <= i < colon ==> l[i] == l[..colon][i];
    assert forall i :: colon < i < |l| ==> l[i] == l[colon + 1..][i - colon - 1];
  }

  lemma AllOneLine(ls: seq<string>)
    requires HeaderLines(ls)
    ensures forall i :: 0 <= i < |ls| ==> OneLine(ls[i])
  {
    forall i | 0 <= i < |ls| ensures OneLine(ls[i]) {
      if i == 0 { StatusIsOneLine(ls[0]); } else { FieldIsOneLine(ls[i]); }
    }
  }

  lemma {:induction false} LinesConcat(a: seq<string>, b: seq<string>)
    ensures Lines(a + b) == Lines(a) + Lines(b)
  {
    if a == [] {
      assert a + b == b;
    } else {
      assert (a + b)[0] == a[0] && (a + b)[1..] == a[1..] + b;
      LinesConcat(a[1..], b);
    }
  }

  /** The lines end in one. */
  lemma {:induction false} LinesEnd(ls: seq<string>)
    requires ls != []
    ensures var t := Lines(ls); |t| >= 2 && t[|t| - 2] == '\r' && t[|t| - 1] == '\n'
  {
    if |ls| > 1 { LinesEnd(ls[1..]); }
  }

  /** The blank line a text of lines ends with is the only one. */
  lemma {:induction false} OneBlankLine(ls: seq<string>)
    requires ls != [] && forall i :: 0 <= i < |ls| ==> OneLine(ls[i])
    ensures var h := Head(ls);
      |h| >= 4 && MatchAt(h, BLANK_LINE, |h| - 4) && forall j :: 0 <= j < |h| - 4 ==> !MatchAt(h, BLANK_LINE, j)
  {
    var h, l := Head(ls), ls[0];
    if |ls| == 1 {
      assert ls[1..] == [] && BLANK_LINE == CRLF + CRLF;
      assert h == l + CRLF + Lines([]) + CRLF == l + BLANK_LINE;
      forall j | 0 <= j < |h| - 4 ensures !MatchAt(h, BLANK_LINE, j) {
        assert h[j + 0] == l[j] && BLANK_LINE[0] == '\r';
      }
    } else {
      var rest := Head(ls[1..]);
      OneBlankLine(ls[1..]);
      assert h == l + CRLF + rest;
      MatchShift(l + CRLF, rest, BLANK_LINE);
      forall j | 0 <= j < |h| - 4 ensures !MatchAt(h, BLANK_LINE, j) {
        if j < |l| {
          assert h[j + 0] == l[j] && BLANK_LINE[0] == '\r';
        } else if j == |l| {
          assert h[j + 2] == rest[0] == ls[1][0] && BLANK_LINE[2] == '\r';
        } else if j == |l| + 1 {
          assert h[j + 0] == '\n' && BLANK_LINE[0] == '\r';
        } else {
          var k := j - (|l| + 2);
          assert !MatchAt(rest, BLANK_LINE, k);
        }
      }
      assert |h| - 4 == |l| + 2 + (|rest| - 4);
    }
  }

  lemma MatchShift(a: string, b: string, pat: string)
    ensures forall j: nat :: MatchAt(a + b, pat, |a| + j) <==> MatchAt(b, pat, j)
  {
    assert forall k :: 0 <= k < |b| ==> (a + b)[|a| + k] == b[k];
    forall j: nat ensures MatchAt(a + b, pat, |a| + j) <==> MatchAt(b, pat, j) {
      if MatchAt(a + b, pat, |a| + j) {
        forall i | 0 <= i < |pat| ensures b[j + i] == pat[i] {
          assert (a + b)[|a| + j + i] == pat[i];
        }
      }
    }
  }

  lemma HeadIsComplete(ls: seq<string>)
    requires HeaderLines(ls)
    ensures Complete(Head(ls))
  {
    AllOneLine(ls);
    OneBlankLine(ls);
    FindIs(Head(ls), BLANK_LINE, 0, |Head(ls)| - 4);
  }

  /** The code of a well-formed header is read. */
  lemma StatusOfHead(ls: seq<string>)
    requires HeaderLines(ls)
    ensures ParseStatus(Head(ls)) == Some(Some(NatValue(ls[0][9..12])))
  {
    var h, l := Head(ls), ls[0];
    StatusIsOneLine(l);
    assert h == l + (CRLF + (Lines(ls[1..]) + CRLF));
    assert h[..|l|] == l && h[9..12] == l[9..12];
    assert MatchAt(h, CRLF, |l|);
    forall j | 0 <= j < |l| ensures !MatchAt(h, CRLF, j) {
      assert h[j + 0] == l[j] && CRLF[0] == '\r';
    }
    FindIs(h, CRLF, 0, |l|);
    StatusRead(h, |l|, 8);
  }

  lemma HeadFacts(ls: seq<string>)
    requires HeaderLines(ls)
    ensures Complete(Head(ls)) && HasStatus(Head(ls))
  {
    HeadIsComplete(ls);
    StatusOfHead(ls);
  }

  // ---- well-formed headers whose answer depends on the split ----

  /** The first `Content-Length:` of the lines is the end of the last one. */
  ghost predicate EndsBare(ls: seq<string>) {
    HeaderLines(ls) && Find(Lines(ls), CONTENT_LENGTH, 0) == Some(|Lines(ls)| - 17)
  }

  /** Then the header, well formed as it is, dangles. */
  lemma BareFieldDangles(ls: seq<string>)
    requires EndsBare(ls)
    ensures WellFormed(Head(ls)) && Dangling(Head(ls))
  {
    HeadFacts(ls);
    FindStable(Lines(ls), CRLF, CONTENT_LENGTH, 0);
    BareKeyDangles(Head(ls), |Lines(ls)| - 17);
  }

  lemma FoundAfter(before: string, pat: string, more: string)
    requires pat != "" && pat[0] !in before
    ensures Find(before + pat + more, pat, 0) == Some(|before|)
  {
    var s := before + pat + more;
    forall i | 0 <= i < |pat| ensures s[|before| + i] == pat[i] {}
    forall j | 0 <= j < |before| ensures !MatchAt(s, pat, j) {
      assert s[j + 0] == before[j] != pat[0];
    }
    FindIs(s, pat, 0, |before|);
  }

  lemma BareKeyField(name: string)
    requires Token(name)
    ensures FieldLine(name + ": " + CONTENT_LENGTH)
  {
    var l := name + ": " + CONTENT_LENGTH;
    assert l[..|name|] == name && l[|name| + 1..] == " " + CONTENT_LENGTH;
  }

  lemma TwoLines(line: string, field: string)
    ensures Lines([line, field]) == line + CRLF + (field + CRLF)
  {
    assert [line, field][1..] == [field] && [field][1..] == [];
    assert Lines([field]) == field + CRLF + Lines([]);
  }

  /** Two lines, the second ending in a key whose first character is nowhere before it. */
  lemma KeyInTwoLines(line: string, name: string, key: string, crlf: string)
    requires key != "" && key[0] !in line && key[0] !in name && key[0] !in crlf
    ensures var t := line + crlf + (name + key + crlf); Find(t, key, 0) == Some(|t| - |crlf| - |key|)
  {
    var before := line + crlf + name;
    assert key[0] !in before;
    FoundAfter(before, key, crlf);
    assert line + crlf + (name + key + crlf) == before + key + crlf;
  }

  lemma BareKeyText(line: string, name: string)
    requires 'C' !in line && 'C' !in name
    ensures var t := Lines([line, name + CONTENT_LENGTH]); Find(t, CONTENT_LENGTH, 0) == Some(|t| - 17)
  {
    TwoLines(line, name + CONTENT_LENGTH);
    KeyInTwoLines(line, name, CONTENT_LENGTH, CRLF);
  }

  lemma StillNoKey(name: string, colon: string)
    requires 'C' !in name && 'C' !in colon
    ensures 'C' !in name + colon
  {}

  /** A header of two lines whose field ends in the bare key. */
  lemma BareKeyHeader(line: string, name: string)
    requires StatusLine(line) && Token(name) && 'C' !in line && 'C' !in name
    ensures EndsBare([line, name + ": " + CONTENT_LENGTH])
  {
    BareKeyField(name);
    StillNoKey(name, ": ");
    BareKeyText(line, name + ": ");
  }

  lemma BareFieldAnswers(ls: seq<string>, d: char)
    requires EndsBare(ls) && IsDigit(d)
    ensures var h := Head(ls);
      && WellFormed(h) && Dangling(h) && ParseHttpHeader(h) == Throws
      && ParseHttpHeader(h + [d]) == Parsed(|h|, NatValue(ls[0][9..12]), DigitValue(d))
  {
    BareFieldDangles(ls);
    StatusOfHead(ls);
    DanglingAnswers(Head(ls), d);
  }

  /**
   There are such headers: any status line and a field `X-Note: Content-Length:` will do. The parser throws on the
   header alone, and takes for the length whatever digit it was read with.
   */
  lemma BareKeyAnswers(line: string, name: string, d: char) returns (h: string)
    requires StatusLine(line) && Token(name) && 'C' !in line && 'C' !in name && IsDigit(d)
    ensures h == Head([line, name + ": " + CONTENT_LENGTH])
    ensures WellFormed(h) && Dangling(h) && ParseHttpHeader(h) == Throws
    ensures ParseHttpHeader(h + [d]) == Parsed(|h|, NatValue(line[9..12]), DigitValue(d))
  {
    var ls := [line, name + ": " + CONTENT_LENGTH];
    h := Head(ls);
    BareKeyHeader(line, name);
    BareFieldAnswers(ls, d);
    assert ls[0] == line;
  }

  lemma TwoAnswers(line: string, name: string) returns (h: string)
    requires StatusLine(line) && Token(name) && 'C' !in line && 'C' !in name && NatValue(line[9..12]) == 200
    ensures h == Head([line, name + ": " + CONTENT_LENGTH])
    ensures WellFormed(h) && ParseHttpHeader(h) == Throws
    ensures ParseHttpHeader(h + ['1']) == Parsed(|h|, 200, 1) && ParseHttpHeader(h + ['2']) == Parsed(|h|, 200, 2)
  {
    h := BareKeyAnswers(line, name, '1');
    var _ := BareKeyAnswers(line, name, '2');
  }

  lemma Okay()
    ensures StatusLine("HTTP/1.1 200 OK") && 'C' !in "HTTP/1.1 200 OK" && Token("X-Note") && 'C' !in "X-Note"
    ensures "HTTP/1.1 200 OK"[9..12] == "200" && NatValue("200") == 200
  {
    var line := "HTTP/1.1 200 OK";
    assert line[..9] == "HTTP/1.1 " && line[9..12] == "200" && line[13..] == "OK";
    assert "200"[..2] == "20" && "20"[..1] == "2" && "2"[..0] == "";
    assert NatValue("2") == 2 && NatValue("20") == 20;
  }

  /** One of them, written out: what the parser makes of it depends on whether, and with which body, it is read. */
  lemma SplitMatters() returns (h: string)
    ensures h == Head(["HTTP/1.1 200 OK", "X-Note" + ": " + CONTENT_LENGTH])
    ensures WellFormed(h) && ParseHttpHeader(h) == Throws
    ensures ParseHttpHeader(h + ['1']) == Parsed(|h|, 200, 1) && ParseHttpHeader(h + ['2']) == Parsed(|h|, 200, 2)
  {
    Okay();
    h := TwoAnswers("HTTP/1.1 200 OK", "X-Note");
  }

  /** A well-formed header that nowhere spells the key is read with length 0, which stands for unknown. */
  lemma UndeclaredIsZero(ls: seq<string>)
    requires HeaderLines(ls) && Find(Lines(ls), CONTENT_LENGTH, 0).None?
    ensures ParseHttpHeader(Head(ls)) == Parsed(|Head(ls)|, NatValue(ls[0][9..12]), 0) && !Dangling(Head(ls))
  {
    var h := Head(ls);
    HeadIsComplete(ls);
    StatusOfHead(ls);
    LinesEnd(ls);
    assert |h| == |Lines(ls)| + 2;
    forall j: nat ensures !MatchAt(h, CONTENT_LENGTH, j) {
      if j < |Lines(ls)| { KeyWithinLines(Lines(ls), CRLF, j); }
    }
    NoLength(h, |h| - 4);
    HeaderRead(h, NatValue(ls[0][9..12]), Some(0));
  }

  // ---- the declared length ----

  function Lower(c: char): char {
    if 'A' <= c <= 'Z' then (c as int + 32) as char else c
  }

  const LENGTH_NAME := "content-length"

  /** Field names are compared without regard to case. */
  ghost predicate NamesLength(name: string) {
    |name| == 14 && forall i :: 0 <= i < 14 ==> Lower(name[i]) == LENGTH_NAME[i]
  }

  ghost predicate Blanks(s: string) {
    forall i :: 0 <= i < |s| ==> s[i] == ' ' || s[i] == '\t'
  }

  /** What surrounds the number of a length field: the lines before it, its name, blanks around the number, the rest. */
  datatype Frame = Frame(before: seq<string>, name: string, left: string, right: string, after: seq<string>)
  {
    ghost predicate Valid() {
      && HeaderLines(before) && NamesLength(name) && Blanks(left) && Blanks(right)
      && forall i :: 0 <= i < |after| ==> FieldLine(after[i])
    }

    function LinesWith(ds: string): seq<string> {
      before + [name + ":" + left + ds + right] + after
    }

    /** Everything up to the number. */
    function Front(): string {
      Lines(before) + name + ":" + left
    }

    function Back(): string {
      right + CRLF + Lines(after) + CRLF
    }
  }

  lemma FrameText(f: Frame, ds: string)
    ensures Head(f.LinesWith(ds)) == f.Front() + (ds + f.Back())
  {
    var field := f.name + ":" + f.left + ds + f.right;
    LinesAround(f.before, field, f.after);
    Rebracket(Lines(f.before), f.name, f.left, ds, f.right, Lines(f.after));
  }

  lemma LinesAround(before: seq<string>, l: string, after: seq<string>)
    ensures Lines(before + [l] + after) == Lines(before) + (l + CRLF) + Lines(after)
  {
    LinesConcat(before + [l], after);
    LinesConcat(before, [l]);
    assert [l][1..] == [] && Lines([l]) == l + CRLF + Lines([]);
  }

  lemma Rebracket(before: string, name: string, left: string, ds: string, right: string, after: string)
    ensures before + (name + ":" + left + ds + right + CRLF) + after + CRLF
         == before + name + ":" + left + (ds + (right + CRLF + after + CRLF))
  {
    var colon, crlf := ":", CRLF;
    assert before + (name + colon + left + ds + right + crlf) + after + crlf
        == before + name + colon + left + (ds + (right + crlf + after + crlf));
  }

  lemma NameIsToken(name: string)
    requires NamesLength(name)
    ensures Token(name) && (name[0] == 'c' || name[0] == 'C')
  {
    forall i | 0 <= i < |name| ensures TokenChar(name[i]) {
      assert Lower(name[i]) == LENGTH_NAME[i];
    }
    assert LENGTH_NAME[0] == 'c';
  }

  lemma FrameIsWellFormed(f: Frame, ds: string)
    requires f.Valid() && AllDigits(ds)
    ensures HeaderLines(f.LinesWith(ds))
  {
    var field, ls := f.name + ":" + f.left + ds + f.right, f.LinesWith(ds);
    NameIsToken(f.name);
    var value := f.left + ds + f.right;
    assert Text(value);
    assert field[..14] == f.name && field[14] == ':' && field[15..] == value;
    assert FieldLine(field);
    forall i | 1 <= i < |ls| ensures FieldLine(ls[i]) {
      assert ls[i] == if i < |f.before| then f.before[i] else if i == |f.before| then field
                      else f.after[i - |f.before| - 1];
    }
  }

  /** The name is spelled as the parser spells it, and nowhere before the field is that spelling, with its colon. */
  predicate ParserFinds(f: Frame) {
    f.name == "Content-Length" && Find(Lines(f.before), CONTENT_LENGTH, 0).None?
  }

  /** The key holds no line end: among the first lines of a text it is found exactly where it is in those lines. */
  lemma KeyWithinLines(before: string, more: string, j: nat)
    requires |before| >= 2 && before[|before| - 2] == '\r' && before[|before| - 1] == '\n' && j < |before|
    ensures MatchAt(before + more, CONTENT_LENGTH, j) <==> MatchAt(before, CONTENT_LENGTH, j)
    ensures MatchAt(before, CONTENT_LENGTH, j) ==> j + 15 <= |before| - 2
  {
    var s := before + more;
    assert forall i :: 0 <= i < |before| ==> s[i] == before[i];
    var r := |before| - 1 - j;
    if r < 15 {
      assert s[j + r] == '\n' && CONTENT_LENGTH[r] != '\n';
      assert r > 0 ==> s[j + (r - 1)] == '\r' && CONTENT_LENGTH[r - 1] != '\r';
    } else if r == 15 {
      assert s[j + 14] == '\r' && CONTENT_LENGTH[14] != '\r';
    }
  }

  /** The field's own key is the first when nothing before contains it. */
  lemma KeyFound(f: Frame, more: string)
    requires f.Valid() && ParserFinds(f)
    ensures Find(Lines(f.before) + CONTENT_LENGTH + more, CONTENT_LENGTH, 0) == Some(|Lines(f.before)|)
  {
    var before := Lines(f.before);
    var s := before + CONTENT_LENGTH + more;
    LinesEnd(f.before);
    assert s == before + (CONTENT_LENGTH + more);
    assert MatchAt(s, CONTENT_LENGTH, |before|);
    forall j | 0 <= j < |before| ensures !MatchAt(s, CONTENT_LENGTH, j) {
      KeyWithinLines(before, CONTENT_LENGTH + more, j);
    }
    FindIs(s, CONTENT_LENGTH, 0, |before|);
  }

  lemma BackBegins(f: Frame)
    requires Blanks(f.right)
    ensures |f.Back()| >= 4 && !IsDigit(f.Back()[0])
  {
    assert f.Back() == f.right + (CRLF + Lines(f.after) + CRLF);
    assert f.right != "" ==> f.Back()[0] == f.right[0];
  }

  /** A frame around digits is a complete header with a status, and the digits are in it between front and back. */
  lemma FrameHead(f: Frame, ds: string)
    requires f.Valid() && AllDigits(ds)
    ensures var h := Head(f.LinesWith(ds));
      Complete(h) && HasStatus(h) && h == f.Front() + (ds + f.Back())
  {
    FrameText(f, ds);
    FrameIsWellFormed(f, ds);
    HeadFacts(f.LinesWith(ds));
  }

  lemma FrontEndsInKey(f: Frame, ds: string, back: string)
    requires f.name == "Content-Length"
    ensures f.Front() + (ds + back) == Lines(f.before) + CONTENT_LENGTH + (f.left + ds + back)
  {
    assert f.name + ":" == CONTENT_LENGTH;
    OneFront(Lines(f.before), f.name, ":", f.left, ds, back);
  }

  lemma OneFront(before: string, name: string, colon: string, left: string, ds: string, back: string)
    ensures before + name + colon + left + (ds + back) == before + (name + colon) + (left + ds + back)
  {}

  /** Found so, the number is read as digits are, and the header does not dangle. */
  lemma DeclaredIsRead(f: Frame, ds: string)
    requires f.Valid() && ParserFinds(f) && ds != "" && AllDigits(ds)
    ensures var h := Head(f.LinesWith(ds));
      Complete(h) && ParseLength(h, |h| - 4) == Converted(ds) && !Dangling(h)
  {
    FrameHead(f, ds);
    BackBegins(f);
    FrontEndsInKey(f, ds, f.Back());
    KeyFound(f, f.left + ds + f.Back());
    ReadAfterKey(Head(f.LinesWith(ds)), Lines(f.before) + CONTENT_LENGTH, f.left, ds, f.Back(), |Lines(f.before)|);
  }

  lemma NumberPlace(front: string, left: string, ds: string, back: string, h: string, v: nat, n: nat)
    requires h == front + (left + ds + back) && Blanks(left) && back != ""
    requires v == |front| + |left| && n == v + |ds|
    ensures forall k :: |front| <= k < v ==> h[k] == ' ' || h[k] == '\t'
    ensures |h| == n + |back| && h[v..n] == ds && h[n] == back[0]
  {
    forall k | |front| <= k < v ensures h[k] == ' ' || h[k] == '\t' {
      assert h[k] == left[k - |front|];
    }
  }

  lemma ReadAfterKey(h: string, front: string, left: string, ds: string, back: string, c: nat)
    requires h == front + (left + ds + back) && |front| == c + 15 && Blanks(left) && ds != "" && AllDigits(ds)
    requires |back| >= 4 && !IsDigit(back[0])
    requires Complete(h) && HasStatus(h) && Find(h, CONTENT_LENGTH, 0) == Some(c)
    ensures ParseLength(h, |h| - 4) == Converted(ds) && !Dangling(h)
  {
    var v := |front| + |left|;
    var n := v + |ds|;
    NumberPlace(front, left, ds, back, h, v, n);
    NumberRead(h, c, v, n);
  }

  lemma NumberRead(h: string, c: nat, v: nat, n: nat)
    requires Complete(h) && HasStatus(h) && Find(h, CONTENT_LENGTH, 0) == Some(c)
    requires c + 15 <= v < n <= |h| - 4 && AllDigits(h[v..n]) && !IsDigit(h[n])
    requires forall k :: c + 15 <= k < v ==> h[k] == ' ' || h[k] == '\t'
    ensures ParseLength(h, |h| - 4) == Converted(h[v..n]) && !Dangling(h)
  {
    FieldFound(h, c, v, n);
    FieldRead(h, c, v, n);
  }

  // ---- otherwise the answer has nothing to do with the number ----

  /** Two texts that differ in one digit, at `q`. */
  ghost predicate DifferAt(a: string, b: string, q: nat) {
    && |a| == |b| && q < |a| && IsDigit(a[q]) && IsDigit(b[q])
    && forall i :: 0 <= i < |a| && i != q ==> a[i] == b[i]
  }

  /** The characters of the key, in place. */
  lemma KeyChars(s: string, j: nat, k: nat)
    requires MatchAt(s, CONTENT_LENGTH, j) && j <= k < j + 15
    ensures !IsDigit(s[k]) && (s[k] == 'C' <==> k == j) && (s[k] == ':' <==> k == j + 14)
  {
    assert s[j + (k - j)] == CONTENT_LENGTH[k - j];
  }

  lemma SameMatches(a: string, b: string, q: nat, j: nat)
    requires DifferAt(a, b, q) && MatchAt(a, CONTENT_LENGTH, j)
    ensures MatchAt(b, CONTENT_LENGTH, j)
  {
    forall k | j <= k < j + 15 ensures a[k] == b[k] {
      KeyChars(a, j, k);
    }
    forall i | 0 <= i < 15 ensures b[j + i] == CONTENT_LENGTH[i] {
      assert a[j + i] == CONTENT_LENGTH[i];
    }
  }

  lemma SameKey(a: string, b: string, q: nat)
    requires DifferAt(a, b, q)
    ensures Find(a, CONTENT_LENGTH, 0) == Find(b, CONTENT_LENGTH, 0)
  {
    forall j: nat ensures MatchAt(a, CONTENT_LENGTH, j) <==> MatchAt(b, CONTENT_LENGTH, j) {
      if MatchAt(a, CONTENT_LENGTH, j) { SameMatches(a, b, q, j); }
      if MatchAt(b, CONTENT_LENGTH, j) { SameMatches(b, a, q, j); }
    }
    var found := Find(a, CONTENT_LENGTH, 0);
    if found.Some? { FindIs(b, CONTENT_LENGTH, 0, found.value); }
  }

  lemma WindowBegins(s: string, v: nat, stop: nat)
    requires v <= stop < |s| && stop < v + 20
    ensures var x, n := Sub(s, v, 20), stop + 1 - v; n <= |x| && x == s[v..stop + 1] + x[n..]
  {
    var x, n := Sub(s, v, 20), stop + 1 - v;
    assert x[..n] == s[v..stop + 1];
    assert x == x[..n] + x[n..];
  }

  /** A number that starts after `q`, or whose digits end, at the latest, with the letter at `stop` before `q`. */
  lemma SameWindow(a: string, b: string, q: nat, v: nat, stop: nat)
    requires DifferAt(a, b, q) && v <= |a| && stop < q
    requires v > q || (v <= stop && Stops(a[stop]) && !IsSpace(a[stop]))
    ensures Stoull(Sub(a, v, 20)) == Stoull(Sub(b, v, 20))
  {
    if v > q || v + 20 <= stop + 1 {
      assert Sub(a, v, 20) == Sub(b, v, 20);
    } else {
      var w, x, y := a[v..stop + 1], Sub(a, v, 20), Sub(b, v, 20);
      assert w == b[v..stop + 1] && w[|w| - 1] == a[stop];
      WindowBegins(a, v, stop);
      WindowBegins(b, v, stop);
      NumberStable(w, x[|w|..]);
      NumberStable(w, y[|w|..]);
      SameNumber(x, y);
    }
  }

  /**
   Two complete headers that differ in one digit give the same length when the key is found after that digit, or so far
   before it that a line end and, after it, a letter lie between.
   */
  lemma SameLength(a: string, b: string, q: nat, stop: nat)
    requires DifferAt(a, b, q) && Complete(a) && 1 <= stop < q && a[stop - 1] == '\n' && IsLetter(a[stop])
    requires var found := Find(a, CONTENT_LENGTH, 0); found.Some? ==> found.value > q || found.value + 15 < stop
    ensures ParseLength(a, |a| - 4) == ParseLength(b, |a| - 4)
  {
    SameKey(a, b, q);
    var found := Find(a, CONTENT_LENGTH, 0);
    if found.None? || found.value >= |a| - 4 {
      NoLength(a, |a| - 4);
      NoLength(b, |a| - 4);
    } else {
      SameLengthAt(a, b, q, stop, found.value);
    }
  }

  lemma SameLengthAt(a: string, b: string, q: nat, stop: nat, c: nat)
    requires DifferAt(a, b, q) && Complete(a) && 1 <= stop < q && a[stop - 1] == '\n' && IsLetter(a[stop])
    requires Find(a, CONTENT_LENGTH, 0) == Find(b, CONTENT_LENGTH, 0) == Some(c) && c < |a| - 4
    requires c > q || c + 15 < stop
    ensures ParseLength(a, |a| - 4) == ParseLength(b, |a| - 4)
  {
    KeyStaysInside(a, "", c);
    NonBlankStable(a, "", c + 15);
    var v := FirstNonBlank(a, c + 15).value;
    SameNonBlank(a, b, q, stop, c + 15, v);
    LengthAt(a, |a| - 4, c, v);
    LengthAt(b, |a| - 4, c, v);
    SameWindow(a, b, q, v, stop);
  }

  lemma SameNonBlank(a: string, b: string, q: nat, stop: nat, from: nat, v: nat)
    requires DifferAt(a, b, q) && 1 <= stop < q && a[stop - 1] == '\n' && (from > q || from < stop)
    requires FirstNonBlank(a, from) == Some(v)
    ensures FirstNonBlank(b, from) == Some(v) && (v > q || v < stop)
  {
    assert from < stop ==> v <= stop - 1;
    NonBlankAt(b, from, v);
  }

  /** Between the line the field starts and its number there is no key, unless it is the field's own. */
  lemma NoKeyInField(f: Frame, h: string, rest: string, j: nat)
    requires f.Valid() && h == f.Front() + rest && rest != "" && IsDigit(rest[0])
    requires |Lines(f.before)| <= j <= |f.Front()| && MatchAt(h, CONTENT_LENGTH, j)
    ensures j == |Lines(f.before)| && f.name == "Content-Length"
  {
    var p, field := |Lines(f.before)|, f.name + ":" + f.left;
    assert h == Lines(f.before) + (field + rest) && |f.Front()| == p + |field|;
    KeyChars(h, j, j);
    forall k | p + 14 < k <= p + |field| ensures h[k] != 'C' {
      assert h[k] == if k < p + |field| then f.left[k - p - 15] else rest[0];
    }
    assert h[p + 14] == field[14] == ':';
    forall k | j <= k < j + 15 ensures (h[k] == 'C' <==> k == j) && (h[k] == ':' <==> k == j + 14) {
      KeyChars(h, j, k);
    }
    assert j == p;
    var name := "Content-Length";
    forall i | 0 <= i < 14 ensures f.name[i] == name[i] {
      assert h[p + i] == field[i] == CONTENT_LENGTH[i];
    }
    assert f.name == name;
  }

  lemma NoKeyBefore(f: Frame, more: string)
    requires f.before != []
    requires var found := Find(Lines(f.before) + more, CONTENT_LENGTH, 0);
      found.Some? ==> found.value >= |Lines(f.before)|
    ensures Find(Lines(f.before), CONTENT_LENGTH, 0).None?
  {
    var before := Lines(f.before);
    LinesEnd(f.before);
    forall j: nat ensures !MatchAt(before, CONTENT_LENGTH, j) {
      if j < |before| { KeyWithinLines(before, more, j); }
    }
  }

  lemma FrontText(f: Frame, rest: string)
    ensures f.Front() + rest == Lines(f.before) + (f.name + ":" + f.left + rest)
  {}

  lemma KeyNotInField(f: Frame, h: string, rest: string, c: nat)
    requires f.Valid() && !ParserFinds(f) && h == f.Front() + rest && rest != "" && IsDigit(rest[0])
    requires Find(h, CONTENT_LENGTH, 0) == Some(c) && c >= |Lines(f.before)|
    ensures c > |f.Front()|
  {
    if c <= |f.Front()| {
      FrontText(f, rest);
      NoKeyBefore(f, f.name + ":" + f.left + rest);
      NoKeyInField(f, h, rest, c);
    }
  }

  lemma KeyBeforeField(f: Frame, h: string, rest: string, c: nat)
    requires f.before != [] && h == f.Front() + rest
    requires MatchAt(h, CONTENT_LENGTH, c) && c < |Lines(f.before)|
    ensures c + 15 < |Lines(f.before)|
  {
    LinesEnd(f.before);
    FrontText(f, rest);
    KeyWithinLines(Lines(f.before), f.name + ":" + f.left + rest, c);
  }

  lemma KeyElsewhere(f: Frame, h: string, rest: string, c: nat)
    requires f.Valid() && !ParserFinds(f) && h == f.Front() + rest && rest != "" && IsDigit(rest[0])
    requires Find(h, CONTENT_LENGTH, 0) == Some(c)
    ensures c > |f.Front()| || c + 15 < |Lines(f.before)|
  {
    if c < |Lines(f.before)| { KeyBeforeField(f, h, rest, c); } else { KeyNotInField(f, h, rest, c); }
  }

  lemma OneDigitApart(front: string, back: string, d: char, e: char)
    requires IsDigit(d) && IsDigit(e)
    ensures DifferAt(front + ([d] + back), front + ([e] + back), |front|)
  {}

  /** The front ends a line, and goes on with a letter. */
  lemma FrontChars(f: Frame)
    requires f.before != [] && NamesLength(f.name)
    ensures var front, stop := f.Front(), |Lines(f.before)|;
      1 <= stop < |front| && front[stop - 1] == '\n' && IsLetter(front[stop])
  {
    LinesEnd(f.before);
    NameIsToken(f.name);
    assert f.Front()[|Lines(f.before)|] == f.name[0];
  }

  lemma FramesDiffer(f: Frame)
    requires f.Valid()
    ensures var a, b, q, stop := Head(f.LinesWith("1")), Head(f.LinesWith("2")), |f.Front()|, |Lines(f.before)|;
      && DifferAt(a, b, q) && Complete(a) && 1 <= stop < q && a[stop - 1] == '\n' && IsLetter(a[stop])
      && a == f.Front() + ("1" + f.Back())
  {
    FrameHead(f, "1");
    FrameText(f, "2");
    FrontChars(f);
    OneDigitApart(f.Front(), f.Back(), '1', '2');
  }

  lemma OtherwiseNumbersDoNotCount(f: Frame)
    requires f.Valid() && !ParserFinds(f)
    ensures var a, b := Head(f.LinesWith("1")), Head(f.LinesWith("2"));
      |a| == |b| && ParseLength(a, |a| - 4) == ParseLength(b, |b| - 4)
  {
    var a, b := Head(f.LinesWith("1")), Head(f.LinesWith("2"));
    FramesDiffer(f);
    var found := Find(a, CONTENT_LENGTH, 0);
    if found.Some? { KeyElsewhere(f, a, "1" + f.Back(), found.value); }
    SameLength(a, b, |f.Front()|, |Lines(f.before)|);
  }

  /** What a field can declare and the parser can hold. */
  ghost predicate Declarable(ds: string) {
    ds != "" && |ds| <= 20 && AllDigits(ds) && NatValue(ds) < TWO64
  }

  /**
   The parser reads the length a header declares, whatever the number, if and only if the field's name is spelled
   exactly `Content-Length` and the same text with its colon occurs nowhere before the field.
   */
  lemma DeclaredLengthIff(f: Frame)
    requires f.Valid()
    ensures (forall ds :: Declarable(ds) ==>
               var h := Head(f.LinesWith(ds)); ParseLength(h, |h| - 4) == Some(NatValue(ds)))
      <==> ParserFinds(f)
  {
    if ParserFinds(f) {
      forall ds | Declarable(ds)
        ensures var h := Head(f.LinesWith(ds)); ParseLength(h, |h| - 4) == Some(NatValue(ds))
      {
        DeclaredIsRead(f, ds);
      }
    } else {
      OtherwiseNumbersDoNotCount(f);
      assert "1"[..0] == "" && "2"[..0] == "";
      assert NatValue("1") == 1 && NatValue("2") == 2;
      assert Declarable("1") && Declarable("2");
    }
  }
}
