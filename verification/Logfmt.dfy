/** The logfmt line printer: escaping, conditional quoting and padding, with the parser that undoes them. */
module Logfmt {
  import opened Options

  const ERROR_KEY := "LOG15_ERROR"

  // ---------------------------------------------------------------- escaping

  predicate NeedsQuotes(c: char) {
    c <= ' ' || c == '=' || c == '"'
  }

  predicate NeedsEscape(c: char) {
    c == '\\' || c == '"' || c == '\n' || c == '\r' || c == '\t'
  }

  function EscapeChar(c: char): string {
    if c == '\\' || c == '"' then ['\\', c]
    else if c == '\n' then "\\n"
    else if c == '\r' then "\\r"
    else if c == '\t' then "\\t"
    else [c]
  }

  function Escaped(s: string): string {
    if s == "" then "" else EscapeChar(s[0]) + Escaped(s[1..])
  }

  predicate AnyQuoted(s: string) {
    exists i :: 0 <= i < |s| && NeedsQuotes(s[i])
  }

  predicate AnyEscaped(s: string) {
    exists i :: 0 <= i < |s| && NeedsEscape(s[i])
  }

  function Escape(s: string): string {
    if !AnyEscaped(s) && !AnyQuoted(s) then s
    else if AnyQuoted(s) then "\"" + Escaped(s) + "\""
    else Escaped(s)
  }

  lemma {:induction false} EscapedSplit(a: string, b: string)
    ensures Escaped(a + b) == Escaped(a) + Escaped(b)
  {
    if a == "" {
      assert a + b == b;
    } else {
      assert (a + b)[1..] == a[1..] + b;
      EscapedSplit(a[1..], b);
    }
  }

  lemma EscapedStep(s: string, i: nat)
    requires i < |s|
    ensures Escaped(s[..i + 1]) == Escaped(s[..i]) + EscapeChar(s[i])
  {
    assert s[..i + 1] == s[..i] + [s[i]];
    EscapedSplit(s[..i], [s[i]]);
    assert [s[i]][1..] == "";
  }

  lemma AnyStep(s: string, i: nat)
    requires i < |s|
    ensures AnyQuoted(s[..i + 1]) == (AnyQuoted(s[..i]) || NeedsQuotes(s[i]))
    ensures AnyEscaped(s[..i + 1]) == (AnyEscaped(s[..i]) || NeedsEscape(s[i]))
  {
    assert s[..i + 1] == s[..i] + [s[i]];
    assert s[..i + 1][i] == s[i];
  }

  /** Two passes: one decides, the other writes into a buffer that is then used with or without its quotes. */
  method EscapeString(s: string) returns (ret: string)
    ensures ret == Escape(s)
  {
    hide AnyQuoted, AnyEscaped, Escaped;
    var needsQuotes, needsEscape := false, false;
    NothingAtFirst();
    for i := 0 to |s|
      invariant needsQuotes == AnyQuoted(s[..i])
      invariant needsEscape == AnyEscaped(s[..i])
    {
      AnyStep(s, i);
      if s[i] <= ' ' || s[i] == '=' || s[i] == '"' {
        needsQuotes := true;
      }
      if s[i] == '\\' || s[i] == '"' || s[i] == '\n' || s[i] == '\r' || s[i] == '\t' {
        needsEscape := true;
      }
    }
    assert s[..|s|] == s;
    if !needsEscape && !needsQuotes {
      return s;
    }
    var e := "\"";
    for i := 0 to |s|
      invariant e == "\"" + Escaped(s[..i])
    {
      EscapedStep(s, i);
      if s[i] == '\\' || s[i] == '"' {
        e := e + ['\\', s[i]];
      } else if s[i] == '\n' {
        e := e + "\\n";
      } else if s[i] == '\r' {
        e := e + "\\r";
      } else if s[i] == '\t' {
        e := e + "\\t";
      } else {
        e := e + [s[i]];
      }
    }
    e := e + "\"";
    assert e == "\"" + Escaped(s) + "\"";
    return if needsQuotes then e else e[1..|e| - 1];
  }

  lemma NothingAtFirst()
    ensures Escaped("") == "" && !AnyQuoted("") && !AnyEscaped("")
  {
  }

  // ---------------------------------------------------------------- the line

  /** A context pair; a key that is not a string loses its value as well. */
  datatype Field = Field(key: Option<string>, value: string)

  function KeyOf(f: Field): string {
    if f.key.Some? then f.key.value else ERROR_KEY
  }

  function TextOf(f: Field): string {
    if f.key.Some? then f.value else ""
  }

  function Spaces(n: nat): (s: string)
    ensures |s| == n && forall i :: 0 <= i < n ==> s[i] == ' '
  {
    seq(n, _ => ' ')
  }

  /** The largest width seen for a key so far. */
  function Width(padding: map<string, nat>, k: string): nat {
    if k in padding then padding[k] else 0
  }

  function Widened(padding: map<string, nat>, k: string, length: nat): map<string, nat> {
    if Width(padding, k) < length then padding[k := length] else padding
  }

  /** The pairs of a line; each but the last is padded to its key's width and followed by one more space. */
  function Print(ctx: seq<Field>, padding: map<string, nat>): string
    decreases |ctx|, 1
  {
    if ctx == [] then ""
    else KeyOf(ctx[0]) + "=" + (Escape(TextOf(ctx[0])) + AfterFirst(ctx, padding))
  }

  function AfterFirst(ctx: seq<Field>, padding: map<string, nat>): string
    requires ctx != []
    decreases |ctx|, 0
  {
    if |ctx| > 1 then
      var k, length := KeyOf(ctx[0]), |Escape(TextOf(ctx[0]))|;
      var after := Widened(padding, k, length);
      Spaces(Width(after, k) - length + 1) + Print(ctx[1..], after)
    else ""
  }

  function PaddingAfter(ctx: seq<Field>, padding: map<string, nat>): map<string, nat> {
    if ctx == [] then padding
    else PaddingAfter(ctx[1..], Widened(padding, KeyOf(ctx[0]), |Escape(TextOf(ctx[0]))|))
  }

  /** The formatter with its padding memory. */
  class Formatter {
    var fieldPadding: map<string, nat>

    constructor ()
      ensures fieldPadding == map[]
    {
      fieldPadding := map[];
    }

    /** One turn of the loop. */
    method FieldOf(ctx: seq<Field>, i: nat) returns (text: string)
      requires i < |ctx|
      modifies this
      ensures text == FieldText(ctx, i, old(fieldPadding))
      ensures fieldPadding == Widened(old(fieldPadding), KeyOf(ctx[i]), |Escape(TextOf(ctx[i]))|)
    {
      hide Escape, KeyOf, TextOf;
      text := if i != 0 then " " else "";
      var k := KeyOf(ctx[i]);
      var v := EscapeString(TextOf(ctx[i]));
      var padding := Width(fieldPadding, k);
      var length := |v|;
      if padding < length {
        padding := length;
        fieldPadding := fieldPadding[k := padding];
      }
      text := text + k + "=" + v;
      if i < |ctx| - 1 {
        text := text + Spaces(padding - length);
      }
    }

    method Logfmt(ctx: seq<Field>) returns (buf: string)
      modifies this
      ensures buf == Print(ctx, old(fieldPadding)) + "\n"
      ensures fieldPadding == PaddingAfter(ctx, old(fieldPadding))
    {
      hide Print, Escape, PaddingAfter, Width, Widened, KeyOf, TextOf;
      buf := "";
      ghost var start := fieldPadding;
      assert ctx[0..] == ctx;
      Begun(ctx, start);
      for i := 0 to |ctx|
        invariant WrittenTo(ctx, i, start, buf, fieldPadding)
      {
        OneField(ctx, i, start, buf, fieldPadding);
        var text := FieldOf(ctx, i);
        buf := buf + text;
      }
      AllWritten(ctx, start, buf, fieldPadding);
      buf := buf + "\n";
    }
  }

  /** What the loop adds for one field, separators included. */
  ghost function FieldText(ctx: seq<Field>, i: nat, padding: map<string, nat>): string
    requires i < |ctx|
  {
    var k, v := KeyOf(ctx[i]), Escape(TextOf(ctx[i]));
    (if i != 0 then " " else "") + k + "=" + v
    + (if i < |ctx| - 1 then Spaces(Width(Widened(padding, k, |v|), k) - |v|) else "")
  }

  ghost predicate WrittenTo(ctx: seq<Field>, i: nat, start: map<string, nat>, buf: string, padding: map<string, nat>)
    requires i <= |ctx|
  {
    buf + (if 0 < i < |ctx| then " " else "") + Print(ctx[i..], padding) == Print(ctx, start)
    && PaddingAfter(ctx[i..], padding) == PaddingAfter(ctx, start)
  }

  lemma Begun(ctx: seq<Field>, start: map<string, nat>)
    ensures WrittenTo(ctx, 0, start, "", start)
  {
    assert ctx[0..] == ctx;
  }

  lemma Assoc(a: string, b: string, c: string)
    ensures a + (b + c) == a + b + c
  {
  }

  lemma Joined(buf: string, sep: string, k: string, v: string, rest: string)
    ensures buf + sep + (k + "=" + (v + rest)) == buf + (sep + k + "=" + v) + rest
  {
    hide *;
    Assoc(k + "=", v, rest);
    Assoc(buf + sep, k + "=" + v, rest);
    Assoc(buf, sep, k + "=" + v);
    Assoc(sep, k + "=", v);
    Assoc(sep, k, "=");
  }

  lemma JoinedSpaces(buf: string, text: string, n: nat, rest: string)
    ensures buf + text + (Spaces(n + 1) + rest) == buf + (text + Spaces(n)) + " " + rest
  {
    SpacesJoin(n);
    hide *;
    Assoc(buf + text, Spaces(n + 1), rest);
    Assoc(buf + text, Spaces(n), " ");
    Assoc(buf, text, Spaces(n));
  }

  /** The line so far, one field on. */
  lemma FieldJoined(ctx: seq<Field>, i: nat, buf: string, padding: map<string, nat>)
    requires i < |ctx|
    ensures buf + (if i != 0 then " " else "") + Print(ctx[i..], padding)
         == buf + FieldText(ctx, i, padding) + (if i + 1 < |ctx| then " " else "")
            + Print(ctx[i + 1..], Widened(padding, KeyOf(ctx[i]), |Escape(TextOf(ctx[i]))|))
  {
    assert ctx[i..][0] == ctx[i] && ctx[i..][1..] == ctx[i + 1..];
    var k, v := KeyOf(ctx[i]), Escape(TextOf(ctx[i]));
    var after := Widened(padding, k, |v|);
    var pad := Width(after, k) - |v|;
    var sep := if i != 0 then " " else "";
    var tail := AfterFirst(ctx[i..], padding);
    var rest := Print(ctx[i + 1..], after);
    var text := sep + k + "=" + v;
    assert Print(ctx[i..], padding) == k + "=" + (v + tail);
    assert i + 1 < |ctx| ==> tail == Spaces(pad + 1) + rest && FieldText(ctx, i, padding) == text + Spaces(pad);
    assert i + 1 == |ctx| ==> tail == "" && rest == "" && FieldText(ctx, i, padding) == text + "";
    hide *;
    Joined(buf, sep, k, v, tail);
    if i + 1 < |ctx| {
      JoinedSpaces(buf, text, pad, rest);
    }
  }

  lemma OneField(ctx: seq<Field>, i: nat, start: map<string, nat>, buf: string, padding: map<string, nat>)
    requires i < |ctx| && WrittenTo(ctx, i, start, buf, padding)
    ensures WrittenTo(ctx, i + 1, start, buf + FieldText(ctx, i, padding),
                      Widened(padding, KeyOf(ctx[i]), |Escape(TextOf(ctx[i]))|))
  {
    FieldJoined(ctx, i, buf, padding);
    var after := Widened(padding, KeyOf(ctx[i]), |Escape(TextOf(ctx[i]))|);
    assert PaddingAfter(ctx[i..], padding) == PaddingAfter(ctx[i + 1..], after) by {
      assert ctx[i..][0] == ctx[i] && ctx[i..][1..] == ctx[i + 1..];
    }
    hide Print, PaddingAfter, FieldText, Escape, KeyOf, TextOf, Widened;
  }

  lemma AllWritten(ctx: seq<Field>, start: map<string, nat>, buf: string, padding: map<string, nat>)
    requires WrittenTo(ctx, |ctx|, start, buf, padding)
    ensures buf == Print(ctx, start) && padding == PaddingAfter(ctx, start)
  {
    assert ctx[|ctx|..] == [];
  }

  // ---------------------------------------------------------------- the parser

  datatype Scanned = Scanned(text: string, rest: string)

  function Unescaped(c: char): char {
    if c == 'n' then '\n' else if c == 'r' then '\r' else if c == 't' then '\t' else c
  }

  /** Reads escaped characters up to the stop character, or up to the end where that is allowed. */
  function Scan(s: string, stop: char, endStops: bool): (r: Option<Scanned>)
    ensures r.Some? ==> |r.value.rest| <= |s|
    decreases |s|
  {
    if s == "" then (if endStops then Some(Scanned("", "")) else None)
    else if s[0] == stop then Some(Scanned("", s))
    else if s[0] == '\\' then
      if |s| < 2 then None
      else match Scan(s[2..], stop, endStops)
        case None => None
        case Some(r) => Some(Scanned([Unescaped(s[1])] + r.text, r.rest))
    else match Scan(s[1..], stop, endStops)
      case None => None
      case Some(r) => Some(Scanned([s[0]] + r.text, r.rest))
  }

  /** A value is quoted, or ends at the next space or at the end of the line. */
  function ParseValue(s: string): (r: Option<Scanned>)
    ensures r.Some? ==> |r.value.rest| <= |s|
  {
    if s != "" && s[0] == '"' then
      match Scan(s[1..], '"', false)
      case None => None
      case Some(r) => if r.rest == "" then None else Some(Scanned(r.text, r.rest[1..]))
    else Scan(s, ' ', true)
  }

  function SkipSpaces(s: string): (t: string)
    ensures |t| <= |s|
  {
    if s != "" && s[0] == ' ' then SkipSpaces(s[1..]) else s
  }

  /** A key ends at the next equals sign. */
  function ParseKey(s: string): (r: Option<Scanned>)
    ensures r.Some? ==> |r.value.rest| < |s|
  {
    if s == "" then None
    else if s[0] == '=' then Some(Scanned("", s[1..]))
    else match ParseKey(s[1..])
      case None => None
      case Some(r) => Some(Scanned([s[0]] + r.text, r.rest))
  }

  datatype Pair = Pair(key: string, value: string)

  function ParsePairs(s: string): Option<seq<Pair>>
    decreases |s|
  {
    var t := SkipSpaces(s);
    if t == "" then Some([])
    else match ParseKey(t)
      case None => None
      case Some(key) =>
        match ParseValue(key.rest)
        case None => None
        case Some(value) =>
          match ParsePairs(value.rest)
          case None => None
          case Some(pairs) => Some([Pair(key.text, value.text)] + pairs)
  }

  function ParseLine(line: string): Option<seq<Pair>> {
    if line == "" || line[|line| - 1] != '\n' then None else ParsePairs(line[..|line| - 1])
  }

  // ---------------------------------------------------------------- the round trip

  /** Holds no equals sign and does not start with a space. */
  predicate CleanKey(k: string) {
    '=' !in k && (k == "" || k[0] != ' ')
  }

  predicate CleanKeys(ctx: seq<Field>) {
    forall i :: 0 <= i < |ctx| ==> CleanKey(KeyOf(ctx[i]))
  }

  function PairOf(f: Field): Pair {
    Pair(KeyOf(f), TextOf(f))
  }

  function PairsOf(ctx: seq<Field>): seq<Pair> {
    if ctx == [] then [] else [PairOf(ctx[0])] + PairsOf(ctx[1..])
  }

  /** One escaped character is read as one step. */
  lemma ScanOne(c: char, tail: string, stop: char, endStops: bool)
    requires stop == '"' || (stop == ' ' && c != ' ')
    ensures Scan(EscapeChar(c) + tail, stop, endStops)
         == match Scan(tail, stop, endStops)
            case None => None
            case Some(r) => Some(Scanned([c] + r.text, r.rest))
  {
    var e := EscapeChar(c);
    assert (e + tail)[|e|..] == tail;
    if |e| == 2 {
      assert e[0] == '\\' && Unescaped(e[1]) == c;
    }
  }

  lemma ScanStops(stop: char, endStops: bool, rest: string)
    requires if rest == "" then endStops else rest[0] == stop
    ensures Scan("" + rest, stop, endStops) == Some(Scanned("", rest))
  {
    assert "" + rest == rest;
  }

  lemma EscapedFirst(s: string, rest: string)
    requires s != ""
    ensures Escaped(s) + rest == EscapeChar(s[0]) + (Escaped(s[1..]) + rest)
    ensures [s[0]] + s[1..] == s && s[0] in s && forall c :: c in s[1..] ==> c in s
  {
    hide EscapeChar;
    Assoc(EscapeChar(s[0]), Escaped(s[1..]), rest);
  }

  lemma {:induction false} ScanEscaped(s: string, stop: char, endStops: bool, rest: string)
    requires stop == '"' || (stop == ' ' && ' ' !in s)
    requires if rest == "" then endStops else rest[0] == stop
    ensures Scan(Escaped(s) + rest, stop, endStops) == Some(Scanned(s, rest))
    decreases |s|
  {
    if s == "" {
      NothingAtFirst();
      hide *;
      ScanStops(stop, endStops, rest);
    } else {
      hide *;
      EscapedFirst(s, rest);
      ScanEscaped(s[1..], stop, endStops, rest);
      ScanOne(s[0], Escaped(s[1..]) + rest, stop, endStops);
    }
  }

  lemma {:induction false} NothingToEscape(s: string)
    requires !AnyEscaped(s)
    ensures Escaped(s) == s
  {
    if s != "" {
      assert !NeedsEscape(s[0]);
      assert forall i :: 0 <= i < |s[1..]| ==> s[1..][i] == s[i + 1];
      NothingToEscape(s[1..]);
      assert [s[0]] + s[1..] == s;
    }
  }

  lemma EscapedStart(s: string)
    requires !AnyQuoted(s) && s != ""
    ensures Escaped(s) != "" && Escaped(s)[0] != '"'
  {
    assert !NeedsQuotes(s[0]);
  }

  lemma QuotedRoundTrip(s: string, rest: string)
    requires AnyQuoted(s)
    ensures ParseValue(Escape(s) + rest) == Some(Scanned(s, rest))
  {
    ScanEscaped(s, '"', false, "\"" + rest);
    hide Escaped, Scan, AnyQuoted, AnyEscaped;
    assert Escape(s) + rest == "\"" + (Escaped(s) + ("\"" + rest));
    assert ("\"" + rest)[1..] == rest;
  }

  lemma BareRoundTrip(s: string, rest: string)
    requires !AnyQuoted(s) && (rest == "" || rest[0] == ' ')
    ensures ParseValue(Escape(s) + rest) == Some(Scanned(s, rest))
  {
    if !AnyEscaped(s) {
      NothingToEscape(s);
    }
    assert Escape(s) == Escaped(s);
    assert forall i :: 0 <= i < |s| ==> !NeedsQuotes(s[i]);
    ScanEscaped(s, ' ', true, rest);
    if s != "" {
      EscapedStart(s);
    }
    hide Escape, Escaped, Scan, AnyQuoted, AnyEscaped;
    if s == "" {
      NothingAtFirst();
    }
  }

  /** Whatever the value, and whatever spaces follow it, the parser gets it back. */
  lemma ValueRoundTrip(s: string, rest: string)
    requires rest == "" || rest[0] == ' '
    ensures ParseValue(Escape(s) + rest) == Some(Scanned(s, rest))
  {
    hide *;
    if AnyQuoted(s) {
      QuotedRoundTrip(s, rest);
    } else {
      BareRoundTrip(s, rest);
    }
  }

  lemma {:induction false} KeyRoundTrip(k: string, rest: string)
    requires '=' !in k
    ensures ParseKey(k + "=" + rest) == Some(Scanned(k, rest))
  {
    var s := k + "=" + rest;
    if k == "" {
      assert s[1..] == rest;
    } else {
      assert s[0] == k[0] && k[0] in k;
      assert s[1..] == k[1..] + "=" + rest;
      KeyRoundTrip(k[1..], rest);
      assert [k[0]] + k[1..] == k;
    }
  }

  lemma {:induction false} SpacesSkipped(n: nat, s: string)
    ensures SkipSpaces(Spaces(n) + s) == SkipSpaces(s)
  {
    if n == 0 {
      assert Spaces(0) + s == s;
    } else {
      assert (Spaces(n) + s)[1..] == Spaces(n - 1) + s;
      SpacesSkipped(n - 1, s);
    }
  }

  lemma KeyNotSkipped(k: string, rest: string)
    requires CleanKey(k)
    ensures SkipSpaces(k + "=" + rest) == k + "=" + rest
  {
    assert k != "" ==> k[0] in k;
  }

  /** One pair with whatever comes after it. */
  lemma PairRoundTrip(f: Field, n: nat, rest: string)
    requires CleanKey(KeyOf(f)) && (rest == "" || rest[0] == ' ')
    ensures ParsePairs(Spaces(n) + (KeyOf(f) + "=" + (Escape(TextOf(f)) + rest)))
         == match ParsePairs(rest) case None => None case Some(pairs) => Some([PairOf(f)] + pairs)
  {
    var k, v := KeyOf(f), Escape(TextOf(f));
    SpacesSkipped(n, k + "=" + (v + rest));
    KeyNotSkipped(k, v + rest);
    KeyRoundTrip(k, v + rest);
    ValueRoundTrip(TextOf(f), rest);
    hide Escape, ParseValue, ParseKey, SkipSpaces, Spaces;
    assert k + "=" + (v + rest) != "";
  }

  lemma SpacesJoin(n: nat)
    ensures Spaces(n) + " " == Spaces(n + 1)
  {
  }

  /**
   * The same line with whatever gap each field found: lines that other goroutines print meanwhile
   * change the padding between two fields, but a gap is what is left of a width at least the value's.
   */
  function Line(ctx: seq<Field>, gaps: seq<nat>): string
    requires |gaps| == |ctx|
    decreases |ctx|, 1
  {
    if ctx == [] then ""
    else KeyOf(ctx[0]) + "=" + (Escape(TextOf(ctx[0])) + LineAfterFirst(ctx, gaps))
  }

  function LineAfterFirst(ctx: seq<Field>, gaps: seq<nat>): (s: string)
    requires |gaps| == |ctx| > 0
    ensures s == "" || s[0] == ' '
    decreases |ctx|, 0
  {
    if |ctx| > 1 then Spaces(gaps[0] + 1) + Line(ctx[1..], gaps[1..]) else ""
  }

  function Gaps(ctx: seq<Field>, padding: map<string, nat>): (gaps: seq<nat>)
    ensures |gaps| == |ctx|
  {
    if ctx == [] then []
    else
      var k, length := KeyOf(ctx[0]), |Escape(TextOf(ctx[0]))|;
      var after := Widened(padding, k, length);
      [Width(after, k) - length] + Gaps(ctx[1..], after)
  }

  lemma GapsStep(ctx: seq<Field>, padding: map<string, nat>)
    requires ctx != []
    ensures var k, length := KeyOf(ctx[0]), |Escape(TextOf(ctx[0]))|; var after := Widened(padding, k, length);
      Gaps(ctx, padding)[0] == Width(after, k) - length && Gaps(ctx, padding)[1..] == Gaps(ctx[1..], after)
  {
    hide Escape, Widened, Width, KeyOf, TextOf;
  }

  lemma SameAfterFirst(ctx: seq<Field>, padding: map<string, nat>, gaps: seq<nat>)
    requires |gaps| == |ctx| > 0
    requires var k, length := KeyOf(ctx[0]), |Escape(TextOf(ctx[0]))|; var after := Widened(padding, k, length);
      gaps[0] == Width(after, k) - length && Print(ctx[1..], after) == Line(ctx[1..], gaps[1..])
    ensures Print(ctx, padding) == Line(ctx, gaps)
  {
    assert AfterFirst(ctx, padding) == LineAfterFirst(ctx, gaps) by {
      hide Print, Line, Escape, Widened, Width, KeyOf, TextOf, Spaces;
    }
    hide AfterFirst, LineAfterFirst, Escape, Widened, Width, KeyOf, TextOf, Spaces;
  }

  lemma {:induction false} PrintIsLine(ctx: seq<Field>, padding: map<string, nat>)
    ensures Print(ctx, padding) == Line(ctx, Gaps(ctx, padding))
    decreases |ctx|
  {
    if ctx != [] {
      hide *;
      GapsStep(ctx, padding);
      PrintIsLine(ctx[1..], Widened(padding, KeyOf(ctx[0]), |Escape(TextOf(ctx[0]))|));
      SameAfterFirst(ctx, padding, Gaps(ctx, padding));
    }
  }

  lemma {:induction false} LineParsed(ctx: seq<Field>, gaps: seq<nat>, n: nat)
    requires CleanKeys(ctx) && |gaps| == |ctx|
    ensures ParsePairs(Spaces(n) + Line(ctx, gaps)) == Some(PairsOf(ctx))
    decreases |ctx|
  {
    hide ParsePairs, Escape, Spaces;
    if ctx == [] {
      SpacesSkipped(n, "");
      BlankLine(Spaces(n) + "");
      assert Line(ctx, gaps) == "";
    } else {
      PairRoundTrip(ctx[0], n, LineAfterFirst(ctx, gaps));
      if |ctx| == 1 {
        BlankLine("");
      } else {
        LineParsed(ctx[1..], gaps[1..], gaps[0] + 1);
      }
    }
  }

  lemma BlankLine(s: string)
    requires SkipSpaces(s) == ""
    ensures ParsePairs(s) == Some([])
  {
  }

  lemma LineText(text: string)
    ensures ParseLine(text + "\n") == ParsePairs(text)
  {
    assert (text + "\n")[..|text|] == text;
    hide ParsePairs;
  }

  /** Whatever the gaps, a line with clean keys parses back into the same keys and texts. */
  lemma LineRoundTrip(ctx: seq<Field>, gaps: seq<nat>)
    requires |gaps| == |ctx| && CleanKeys(ctx)
    ensures ParseLine(Line(ctx, gaps) + "\n") == Some(PairsOf(ctx))
  {
    hide *;
    var text := Line(ctx, gaps);
    LineText(text);
    LineParsed(ctx, gaps, 0);
    NoSpaces(text);
  }

  /** In particular from any padding memory. */
  lemma LogfmtRoundTrip(ctx: seq<Field>, padding: map<string, nat>)
    requires CleanKeys(ctx)
    ensures ParseLine(Print(ctx, padding) + "\n") == Some(PairsOf(ctx))
  {
    hide *;
    PrintIsLine(ctx, padding);
    LineRoundTrip(ctx, Gaps(ctx, padding));
  }

  lemma NoSpaces(s: string)
    ensures Spaces(0) + s == s
  {
  }

  // ---------------------------------------------------------------- what a line determines

  /** Two contexts that print the same line: the printer does not check its keys. */
  lemma TwoContextsOneLine()
    ensures Line([Field(Some("x=1 y"), "2")], [0]) == "x=1 y=2"
    ensures Line([Field(Some("x"), "1"), Field(Some("y"), "2")], [0, 0]) == "x=1 y=2"
    ensures PairsOf([Field(Some("x=1 y"), "2")]) != PairsOf([Field(Some("x"), "1"), Field(Some("y"), "2")])
  {
    var a, b, c := Field(Some("x=1 y"), "2"), Field(Some("x"), "1"), Field(Some("y"), "2");
    assert Escape("1") == "1" && Escape("2") == "2";
    hide Escape;
    assert Line([a], [0]) == "x=1 y" + "=" + ("2" + "");
    assert [b, c][1..] == [c] && [0, 0][1..] == [0];
    assert Line([c], [0]) == "y" + "=" + ("2" + "");
    assert Line([b, c], [0, 0]) == "x" + "=" + ("1" + (" " + Line([c], [0])));
    assert PairsOf([a])[0] == Pair("x=1 y", "2") && PairsOf([b, c])[0] == Pair("x", "1");
  }

  function Printed(f: Field): string {
    KeyOf(f) + "=" + Escape(TextOf(f))
  }

  lemma {:induction false} BareCharacters(s: string)
    requires !AnyQuoted(s)
    ensures forall c :: c in Escaped(s) ==> c != '=' && c != '"' && c != ' '
  {
    if s != "" {
      assert !NeedsQuotes(s[0]);
      assert forall i :: 0 <= i < |s[1..]| ==> s[1..][i] == s[i + 1];
      BareCharacters(s[1..]);
      assert forall c :: c in EscapeChar(s[0]) ==> c == '\\' || c == s[0];
      hide EscapeChar;
    }
  }

  /** Inside quotes a quote always follows a backslash. */
  lemma {:induction false} QuotesAreEscaped(s: string)
    ensures forall j :: 0 <= j < |Escaped(s)| && Escaped(s)[j] == '"' ==> j > 0 && Escaped(s)[j - 1] == '\\'
  {
    if s != "" {
      QuotesAreEscaped(s[1..]);
      var e, rest := EscapeChar(s[0]), Escaped(s[1..]);
      assert Escaped(s) == e + rest;
      hide Escaped;
      forall j | 0 <= j < |e + rest| && (e + rest)[j] == '"'
        ensures j > 0 && (e + rest)[j - 1] == '\\'
      {
        assert j >= |e| ==> rest[j - |e|] == '"';
      }
    }
  }

  lemma BareValue(s: string)
    requires !AnyQuoted(s)
    ensures forall c :: c in Escape(s) ==> c != '=' && c != '"' && c != ' '
  {
    BareCharacters(s);
    if !AnyEscaped(s) {
      NothingToEscape(s);
    }
  }

  /** A value that prints as "=" and something determines where that equals sign stands. */
  lemma NotEarlier(a: string, x: string, b: string, y: string)
    requires a + "=" + Escape(x) == b + "=" + Escape(y) && AnyQuoted(x) == AnyQuoted(y)
    ensures |a| >= |b|
  {
    SuffixCharacters(a + "=", Escape(x));
    if AnyQuoted(x) {
      QuotedNotEarlier(a, x, b, Escape(y));
    } else {
      BareValue(x);
      hide Escape, AnyQuoted;
      assert (b + "=" + Escape(y))[|b|] == '=';
    }
  }

  lemma SuffixCharacters(p: string, k: string)
    ensures forall i :: |p| <= i < |p + k| ==> (p + k)[i] == k[i - |p|] && (p + k)[i] in k
  {
  }

  lemma InnerQuotes(a: string, x: string)
    requires AnyQuoted(x)
    ensures var s := a + "=" + Escape(x);
      forall i :: |a| + 2 <= i < |s| - 1 && s[i] == '"' ==> s[i - 1] == '\\'
  {
    QuotesAreEscaped(x);
    var e := Escaped(x);
    assert Escape(x) == "\"" + e + "\"";
    hide Escaped, Escape, AnyQuoted;
    var head := a + "=" + "\"";
    Assoc(a + "=", "\"" + e, "\"");
    Assoc(a + "=", "\"", e);
    var s := head + e + "\"";
    assert |head| == |a| + 2;
    forall i | |head| <= i < |s| - 1 && s[i] == '"'
      ensures s[i - 1] == '\\'
    {
      assert s[i] == e[i - |head|];
      assert s[i - 1] == e[i - 1 - |head|];
    }
  }

  lemma AfterEquals(b: string, v: string)
    requires v != ""
    ensures (b + "=" + v)[|b|] == '=' && (b + "=" + v)[|b| + 1] == v[0] && |b + "=" + v| == |b| + 1 + |v|
  {
  }

  lemma QuotedNotEarlier(a: string, x: string, b: string, v: string)
    requires AnyQuoted(x) && a + "=" + Escape(x) == b + "=" + v && |v| >= 2 && v[0] == '"'
    ensures |a| >= |b|
  {
    hide *;
    InnerQuotes(a, x);
    AfterEquals(b, v);
  }

  lemma LastCharacter(a: string, e: string)
    requires e != ""
    ensures (a + e)[|a + e| - 1] == e[|e| - 1] && e[|e| - 1] in e
  {
  }

  lemma EndsQuoted(a: string, x: string)
    ensures (a + "=" + Escape(x))[|a + "=" + Escape(x)| - 1] == '"' <==> AnyQuoted(x)
    ensures (a + "=" + Escape(x))[|a + "=" + Escape(x)| - 1] != ' '
  {
    var e := Escape(x);
    if AnyQuoted(x) {
      assert e == "\"" + Escaped(x) + "\"";
      hide Escaped, Escape, AnyQuoted;
      LastCharacter(a + "=", e);
      assert e[|e| - 1] == '"';
    } else {
      BareValue(x);
      hide Escaped, Escape, AnyQuoted;
      if e != "" {
        LastCharacter(a + "=", e);
      }
    }
  }

  lemma ValueDetermined(a: string, x: string, b: string, y: string)
    requires a + "=" + Escape(x) == b + "=" + Escape(y)
    ensures a == b && x == y
  {
    EndsQuoted(a, x);
    EndsQuoted(b, y);
    NotEarlier(a, x, b, y);
    NotEarlier(b, y, a, x);
    hide Escape, AnyQuoted;
    var s := a + "=" + Escape(x);
    assert a == s[..|a|] && b == s[..|a|];
    assert Escape(x) == s[|a| + 1..] && Escape(y) == s[|a| + 1..];
    assert Escape(x) + "" == Escape(x) && Escape(y) + "" == Escape(y);
    ValueRoundTrip(x, "");
    ValueRoundTrip(y, "");
  }

  predicate EndsInSpace(p: string) {
    p == "" || p[|p| - 1] == ' '
  }

  lemma KeyNotEarlier(p: string, k: string, q: string, l: string)
    requires p + k == q + l && EndsInSpace(q) && ' ' !in k
    ensures |p| >= |q|
  {
    SuffixCharacters(p, k);
    assert q != "" ==> (q + l)[|q| - 1] == ' ';
  }

  /** Whatever stands before it, the last field of a line can be told from the line. */
  lemma LastFieldDetermined(p: string, f: Field, q: string, g: Field)
    requires EndsInSpace(p) && EndsInSpace(q) && ' ' !in KeyOf(f) && ' ' !in KeyOf(g)
    requires p + Printed(f) == q + Printed(g)
    ensures p == q && PairOf(f) == PairOf(g)
  {
    var k, l := KeyOf(f), KeyOf(g);
    Assoc(p, k + "=", Escape(TextOf(f)));
    Assoc(p, k, "=");
    Assoc(q, l + "=", Escape(TextOf(g)));
    Assoc(q, l, "=");
    hide KeyOf, TextOf, Escape;
    ValueDetermined(p + k, TextOf(f), q + l, TextOf(g));
    KeyNotEarlier(p, k, q, l);
    KeyNotEarlier(q, l, p, k);
    assert p == (p + k)[..|p|] && q == (p + k)[..|p|];
    assert k == (p + k)[|p|..] && l == (p + k)[|p|..];
  }

  /** What stands before the last field. */
  function BeforeLast(ctx: seq<Field>, gaps: seq<nat>): string
    requires |gaps| == |ctx| > 0
  {
    var n := |ctx| - 1;
    if n == 0 then "" else Line(ctx[..n], gaps[..n]) + Spaces(gaps[n - 1] + 1)
  }

  lemma OneFieldMore(k: string, v: string, spaces: string, before: string, last: string)
    ensures k + "=" + (v + (spaces + (before + last))) == k + "=" + (v + (spaces + before)) + last
  {
    hide *;
    Assoc(spaces, before, last);
    Assoc(v, spaces + before, last);
    Assoc(k + "=", v + (spaces + before), last);
  }

  lemma LineOfOne(ctx: seq<Field>, gaps: seq<nat>)
    requires |gaps| == |ctx| == 1
    ensures Line(ctx, gaps) == Printed(ctx[0])
  {
    hide Escape, KeyOf, TextOf;
    assert Escape(TextOf(ctx[0])) + "" == Escape(TextOf(ctx[0]));
  }

  lemma LineFirst(ctx: seq<Field>, gaps: seq<nat>)
    requires |gaps| == |ctx| > 1
    ensures Line(ctx, gaps)
         == KeyOf(ctx[0]) + "=" + (Escape(TextOf(ctx[0])) + (Spaces(gaps[0] + 1) + Line(ctx[1..], gaps[1..])))
  {
    hide Escape, KeyOf, TextOf, Spaces;
  }

  lemma BeforeLastMore(ctx: seq<Field>, gaps: seq<nat>)
    requires |gaps| == |ctx| > 1
    ensures var n := |ctx| - 1; BeforeLast(ctx, gaps) == Line(ctx[..n], gaps[..n]) + Spaces(gaps[n - 1] + 1)
  {
    hide Line, Spaces;
  }

  lemma BeforeLastFirst(ctx: seq<Field>, gaps: seq<nat>)
    requires |gaps| == |ctx| > 1
    ensures BeforeLast(ctx, gaps)
         == KeyOf(ctx[0]) + "=" + (Escape(TextOf(ctx[0])) + (Spaces(gaps[0] + 1) + BeforeLast(ctx[1..], gaps[1..])))
  {
    hide *;
    var n := |ctx| - 1;
    var k, v, spaces := KeyOf(ctx[0]), Escape(TextOf(ctx[0])), Spaces(gaps[0] + 1);
    BeforeLastMore(ctx, gaps);
    if n == 1 {
      LineOfOne(ctx[..1], gaps[..1]);
      PrintedParts(ctx[0]);
      NothingBeforeOne(ctx[1..], gaps[1..]);
      Assoc(k + "=", v, spaces);
      assert spaces + "" == spaces;
    } else {
      LineFirst(ctx[..n], gaps[..n]);
      assert ctx[..n][1..] == ctx[1..][..n - 1] && gaps[..n][1..] == gaps[1..][..n - 1];
      BeforeLastMore(ctx[1..], gaps[1..]);
      OneFieldMore(k, v, spaces, Line(ctx[1..][..n - 1], gaps[1..][..n - 1]), Spaces(gaps[n - 1] + 1));
    }
  }

  lemma PrintedParts(f: Field)
    ensures Printed(f) == KeyOf(f) + "=" + Escape(TextOf(f))
  {
  }

  lemma NothingBeforeOne(ctx: seq<Field>, gaps: seq<nat>)
    requires |gaps| == |ctx| == 1
    ensures BeforeLast(ctx, gaps) == ""
  {
  }

  lemma {:induction false} LineLast(ctx: seq<Field>, gaps: seq<nat>)
    requires |gaps| == |ctx| > 0
    ensures Line(ctx, gaps) == BeforeLast(ctx, gaps) + Printed(ctx[|ctx| - 1])
    decreases |ctx|
  {
    hide *;
    if |ctx| == 1 {
      LineOfOne(ctx, gaps);
      NothingBeforeOne(ctx, gaps);
      assert "" + Printed(ctx[0]) == Printed(ctx[0]);
    } else {
      var k, v, spaces := KeyOf(ctx[0]), Escape(TextOf(ctx[0])), Spaces(gaps[0] + 1);
      LineFirst(ctx, gaps);
      BeforeLastFirst(ctx, gaps);
      LineLast(ctx[1..], gaps[1..]);
      OneFieldMore(k, v, spaces, BeforeLast(ctx[1..], gaps[1..]), Printed(ctx[|ctx| - 1]));
    }
  }

  lemma LineEnds(ctx: seq<Field>, gaps: seq<nat>)
    requires |gaps| == |ctx| > 0
    ensures Line(ctx, gaps) != "" && Line(ctx, gaps)[|Line(ctx, gaps)| - 1] != ' '
  {
    var p, f := BeforeLast(ctx, gaps), ctx[|ctx| - 1];
    LineLast(ctx, gaps);
    EndsQuoted(p + KeyOf(f), TextOf(f));
    Assoc(p, KeyOf(f) + "=", Escape(TextOf(f)));
    Assoc(p, KeyOf(f), "=");
    hide Line, BeforeLast, Escape, KeyOf, TextOf;
  }

  lemma BeforeEnds(ctx: seq<Field>, gaps: seq<nat>)
    requires |gaps| == |ctx| > 0
    ensures EndsInSpace(BeforeLast(ctx, gaps))
    ensures BeforeLast(ctx, gaps) == "" <==> |ctx| == 1
  {
    hide Line;
  }

  lemma Stripped(u: string, a: nat, v: string, b: nat)
    requires u + Spaces(a) == v + Spaces(b)
    requires u != "" && u[|u| - 1] != ' ' && v != "" && v[|v| - 1] != ' '
    ensures u == v
  {
    var s := u + Spaces(a);
    SuffixCharacters(u, Spaces(a));
    SuffixCharacters(v, Spaces(b));
    assert s[|u| - 1] == u[|u| - 1] && s[|v| - 1] == v[|v| - 1];
    assert u == s[..|u|] && v == s[..|v|];
  }

  predicate SpaceFree(ctx: seq<Field>) {
    forall i :: 0 <= i < |ctx| ==> ' ' !in KeyOf(ctx[i])
  }

  lemma {:induction false} PairsOfLast(ctx: seq<Field>)
    requires ctx != []
    ensures PairsOf(ctx) == PairsOf(ctx[..|ctx| - 1]) + [PairOf(ctx[|ctx| - 1])]
  {
    hide PairOf;
    if |ctx| > 1 {
      PairsOfLast(ctx[1..]);
      assert ctx[1..][..|ctx| - 2] == ctx[..|ctx| - 1][1..];
    } else {
      assert PairsOf(ctx[1..]) == [] && PairsOf(ctx[..0]) == [];
    }
  }

  /** Lines with keys without spaces determine their pairs, read from the end: no key has to be clean for that. */
  lemma {:induction false} LineDetermines(ctx: seq<Field>, gaps: seq<nat>, ctx': seq<Field>, gaps': seq<nat>)
    requires |gaps| == |ctx| && |gaps'| == |ctx'| && SpaceFree(ctx) && SpaceFree(ctx')
    requires Line(ctx, gaps) == Line(ctx', gaps')
    ensures PairsOf(ctx) == PairsOf(ctx')
    decreases |ctx|
  {
    hide Line, BeforeLast, KeyOf, TextOf, PairOf, Printed, Spaces, EndsInSpace;
    if ctx == [] || ctx' == [] {
      EmptyLine();
      if ctx != [] {
        LineEnds(ctx, gaps);
      }
      if ctx' != [] {
        LineEnds(ctx', gaps');
      }
    } else {
      var n, m := |ctx| - 1, |ctx'| - 1;
      LineLast(ctx, gaps);
      LineLast(ctx', gaps');
      BeforeEnds(ctx, gaps);
      BeforeEnds(ctx', gaps');
      LastFieldDetermined(BeforeLast(ctx, gaps), ctx[n], BeforeLast(ctx', gaps'), ctx'[m]);
      if n > 0 {
        FrontDetermined(ctx, gaps, ctx', gaps');
        LineDetermines(ctx[..n], gaps[..n], ctx'[..m], gaps'[..m]);
      } else {
        assert ctx[..n] == [] && ctx'[..m] == [];
      }
      PairsOfLast(ctx);
      PairsOfLast(ctx');
    }
  }

  lemma FrontDetermined(ctx: seq<Field>, gaps: seq<nat>, ctx': seq<Field>, gaps': seq<nat>)
    requires |gaps| == |ctx| > 1 && |gaps'| == |ctx'| > 1
    requires BeforeLast(ctx, gaps) == BeforeLast(ctx', gaps')
    ensures Line(ctx[..|ctx| - 1], gaps[..|ctx| - 1]) == Line(ctx'[..|ctx'| - 1], gaps'[..|ctx'| - 1])
  {
    hide *;
    var n, m := |ctx| - 1, |ctx'| - 1;
    LineEnds(ctx[..n], gaps[..n]);
    LineEnds(ctx'[..m], gaps'[..m]);
    BeforeLastMore(ctx, gaps);
    BeforeLastMore(ctx', gaps');
    Stripped(Line(ctx[..n], gaps[..n]), gaps[n - 1] + 1, Line(ctx'[..m], gaps'[..m]), gaps'[m - 1] + 1);
  }

  lemma EmptyLine()
    ensures Line([], []) == ""
  {
  }

  /** In particular printed lines, from any padding memories. */
  lemma PrintDetermines(ctx: seq<Field>, padding: map<string, nat>, ctx': seq<Field>, padding': map<string, nat>)
    requires SpaceFree(ctx) && SpaceFree(ctx') && Print(ctx, padding) == Print(ctx', padding')
    ensures PairsOf(ctx) == PairsOf(ctx')
  {
    PrintIsLine(ctx, padding);
    PrintIsLine(ctx', padding');
    hide *;
    LineDetermines(ctx, Gaps(ctx, padding), ctx', Gaps(ctx', padding'));
  }

  /** No key holds a character that is banned from keys. */
  ghost predicate Avoids(ctx: seq<Field>, banned: set<char>) {
    forall i, c :: 0 <= i < |ctx| && c in banned ==> c !in KeyOf(ctx[i])
  }

  ghost predicate OneLine(ctx: seq<Field>, gaps: seq<nat>, ctx': seq<Field>, gaps': seq<nat>) {
    |gaps| == |ctx| && |gaps'| == |ctx'| && Line(ctx, gaps) == Line(ctx', gaps')
  }

  ghost predicate LinesDeterminePairs(banned: set<char>) {
    forall ctx: seq<Field>, gaps: seq<nat>, ctx': seq<Field>, gaps': seq<nat> ::
      OneLine(ctx, gaps, ctx', gaps') && Avoids(ctx, banned) && Avoids(ctx', banned) ==> PairsOf(ctx) == PairsOf(ctx')
  }

  function Blank(k: string): Field {
    Field(Some(k), "")
  }

  lemma PrintedBlank(k: string)
    ensures KeyOf(Blank(k)) == k && Escape(TextOf(Blank(k))) == "" && Printed(Blank(k)) == k + "="
  {
    NothingAtFirst();
    assert Escape("") == "";
    hide Escape;
    assert k + "=" + "" == k + "=";
  }

  lemma TwoBlanks(k: string, gap: nat)
    ensures Line([Blank(""), Blank(k)], [gap, 0]) == "=" + (Spaces(gap + 1) + (k + "="))
  {
    hide *;
    var ctx := [Blank(""), Blank(k)];
    assert ctx[1..] == [Blank(k)] && [gap, 0][1..] == [0];
    PrintedBlank("");
    PrintedBlank(k);
    LineFirst(ctx, [gap, 0]);
    LineOfOne([Blank(k)], [0]);
    assert "" + "=" == "=" && "" + (Spaces(gap + 1) + (k + "=")) == Spaces(gap + 1) + (k + "=");
  }

  lemma PairsOfTwo(a: Field, b: Field)
    ensures PairsOf([a, b]) == [PairOf(a), PairOf(b)]
  {
    assert [a, b][1..] == [b] && [b][1..] == [];
    assert PairsOf([b]) == [PairOf(b)] + PairsOf([]);
  }

  /** Empty texts under the empty key and under a single space: keys that avoid everything but the space. */
  lemma SpaceLost()
    ensures Line([Blank(""), Blank(" ")], [0, 0]) == Line([Blank(""), Blank("")], [1, 0])
    ensures PairsOf([Blank(""), Blank(" ")]) != PairsOf([Blank(""), Blank("")])
  {
    TwoBlanks(" ", 0);
    TwoBlanks("", 1);
    assert Spaces(1) + (" " + "=") == Spaces(2) + ("" + "=");
    PairsOfTwo(Blank(""), Blank(" "));
    PairsOfTwo(Blank(""), Blank(""));
    hide Line, PairsOf, Spaces;
    assert PairOf(Blank(" ")).key == " " && |PairOf(Blank("")).key| == 0;
    assert PairsOf([Blank(""), Blank(" ")])[1] != PairsOf([Blank(""), Blank("")])[1];
  }

  /**
   * A caller can keep lines unambiguous by banning characters from keys exactly if the space is among them;
   * banning the equals sign or the quote is neither needed nor enough.
   */
  lemma LinesDeterminePairsIff(banned: set<char>)
    ensures LinesDeterminePairs(banned) <==> ' ' in banned
  {
    hide Line, PairsOf, KeyOf;
    if ' ' in banned {
      forall ctx: seq<Field>, gaps: seq<nat>, ctx': seq<Field>, gaps': seq<nat> |
        OneLine(ctx, gaps, ctx', gaps') && Avoids(ctx, banned) && Avoids(ctx', banned)
        ensures PairsOf(ctx) == PairsOf(ctx')
      {
        LineDetermines(ctx, gaps, ctx', gaps');
      }
    } else {
      var a, b := Blank(""), Blank(" ");
      SpaceLost();
      BlankKeysAvoid(banned);
      assert OneLine([a, b], [0, 0], [a, a], [1, 0]);
    }
  }

  lemma BlankKeysAvoid(banned: set<char>)
    requires ' ' !in banned
    ensures Avoids([Blank(""), Blank(" ")], banned) && Avoids([Blank(""), Blank("")], banned)
  {
  }

  // ---------------------------------------------------------------- one line

  lemma {:induction false} EscapedHasNoNewline(s: string)
    ensures '\n' !in Escaped(s)
  {
    if s != "" {
      EscapedHasNoNewline(s[1..]);
      assert '\n' !in EscapeChar(s[0]);
    }
  }

  lemma EscapeHasNoNewline(s: string)
    ensures '\n' !in Escape(s)
  {
    EscapedHasNoNewline(s);
    if !AnyEscaped(s) {
      NothingToEscape(s);
    }
  }

  /** The only newline of a line is the one that ends it, exactly when no key holds one. */
  lemma {:induction false} NoNewlineInside(ctx: seq<Field>, padding: map<string, nat>)
    ensures '\n' !in Print(ctx, padding) <==> forall i :: 0 <= i < |ctx| ==> '\n' !in KeyOf(ctx[i])
    decreases |ctx|
  {
    if ctx != [] {
      var k, v := KeyOf(ctx[0]), Escape(TextOf(ctx[0]));
      var after := Widened(padding, k, |v|);
      EscapeHasNoNewline(TextOf(ctx[0]));
      NoNewlineInside(ctx[1..], after);
      hide Escape, KeyOf, TextOf;
      assert '\n' !in Spaces(Width(after, k) - |v|);
      assert forall i :: 0 < i < |ctx| ==> ctx[i] == ctx[1..][i - 1];
    }
  }

  /** In sequential use the padding of a key only grows, and covers every value printed for it. */
  lemma {:induction false} PaddingGrows(ctx: seq<Field>, padding: map<string, nat>, k: string)
    ensures Width(padding, k) <= Width(PaddingAfter(ctx, padding), k)
    ensures forall i :: 0 <= i < |ctx| && KeyOf(ctx[i]) == k ==>
              |Escape(TextOf(ctx[i]))| <= Width(PaddingAfter(ctx, padding), k)
    decreases |ctx|
  {
    if ctx != [] {
      PaddingGrows(ctx[1..], Widened(padding, KeyOf(ctx[0]), |Escape(TextOf(ctx[0]))|), k);
      assert forall i :: 0 < i < |ctx| ==> ctx[i] == ctx[1..][i - 1];
      hide Escape;
    }
  }

  /** And no more than that: it is the widest value printed for the key so far. */
  lemma {:induction false} PaddingIsWidest(ctx: seq<Field>, padding: map<string, nat>, k: string)
    ensures Width(PaddingAfter(ctx, padding), k) == Width(padding, k)
            || exists i :: 0 <= i < |ctx| && KeyOf(ctx[i]) == k
                           && |Escape(TextOf(ctx[i]))| == Width(PaddingAfter(ctx, padding), k)
    decreases |ctx|
  {
    if ctx != [] {
      var next := Widened(padding, KeyOf(ctx[0]), |Escape(TextOf(ctx[0]))|);
      PaddingIsWidest(ctx[1..], next, k);
      assert Width(next, k) == Width(padding, k)
          || (KeyOf(ctx[0]) == k && |Escape(TextOf(ctx[0]))| == Width(next, k));
      assert forall i :: 0 <= i < |ctx| - 1 ==> ctx[1..][i] == ctx[i + 1];
      hide Escape, KeyOf, TextOf, Widened, Width;
      if i :| 0 <= i < |ctx[1..]| && KeyOf(ctx[1..][i]) == k
              && |Escape(TextOf(ctx[1..][i]))| == Width(PaddingAfter(ctx[1..], next), k) {
        assert ctx[i + 1] == ctx[1..][i];
      }
    }
  }

  /** A value and the gap after it fill the width known for the key by then. */
  lemma {:induction false} FieldsAligned(ctx: seq<Field>, padding: map<string, nat>, i: nat)
    requires i < |ctx|
    ensures |Escape(TextOf(ctx[i]))| + Gaps(ctx, padding)[i]
         == Width(PaddingAfter(ctx[..i + 1], padding), KeyOf(ctx[i]))
    decreases |ctx|
  {
    GapsStep(ctx, padding);
    var next := Widened(padding, KeyOf(ctx[0]), |Escape(TextOf(ctx[0]))|);
    assert ctx[..i + 1][0] == ctx[0] && ctx[..i + 1][1..] == ctx[1..][..i];
    assert PaddingAfter(ctx[..i + 1], padding) == PaddingAfter(ctx[1..][..i], next);
    if i > 0 {
      FieldsAligned(ctx[1..], next, i - 1);
      hide Escape, KeyOf, TextOf, Widened, Width, Gaps;
      assert Gaps(ctx, padding)[i] == Gaps(ctx, padding)[1..][i - 1];
    } else {
      assert ctx[1..][..0] == [];
    }
  }

  // ---------------------------------------------------------------- what a value looks like

  /** The five characters that are written with a backslash, and all others as they are. */
  lemma EscapedCharacters(c: char)
    ensures EscapeChar('"') == ['\\', '"'] && EscapeChar('\\') == ['\\', '\\']
    ensures EscapeChar('\n') == ['\\', 'n'] && EscapeChar('\r') == ['\\', 'r'] && EscapeChar('\t') == ['\\', 't']
    ensures c !in {'"', '\\', '\n', '\r', '\t'} ==> EscapeChar(c) == [c]
  {
  }

  /** A value is written escaped, and in quotes exactly if it holds a space, a control character, "=" or a quote. */
  lemma ValueLooksLike(s: string)
    ensures Escape(s) == if exists i :: 0 <= i < |s| && (s[i] <= ' ' || s[i] == '=' || s[i] == '"')
                         then "\"" + Escaped(s) + "\"" else Escaped(s)
    ensures s == "" ==> Escaped(s) == ""
    ensures s != "" ==> Escaped(s) == EscapeChar(s[0]) + Escaped(s[1..])
  {
    assert AnyQuoted(s) <==> exists i :: 0 <= i < |s| && (s[i] <= ' ' || s[i] == '=' || s[i] == '"') by {
      if AnyQuoted(s) {
        var i :| 0 <= i < |s| && NeedsQuotes(s[i]);
      }
      if i :| 0 <= i < |s| && (s[i] <= ' ' || s[i] == '=' || s[i] == '"') {
        assert NeedsQuotes(s[i]);
      }
    }
    hide AnyQuoted, EscapeChar;
    if !AnyEscaped(s) {
      NothingToEscape(s);
    }
  }

  /** A key that is not a string loses its value, and is printed as an error. */
  lemma BadKey(value: string)
    ensures Line([Field(None, value)], [0]) == "LOG15_ERROR="
  {
    LineOfOne([Field(None, value)], [0]);
    NothingAtFirst();
    assert Escape("") == "";
    hide Line, Escape;
    assert "LOG15_ERROR" + "=" + "" == "LOG15_ERROR=";
  }
}
