/** The key under which an accessor's arguments are cached. */
module CacheKeys {
  import opened Options
  import opened Tokens

  /** A pointer is rendered by its address, whatever it points to. */
  datatype Arg = Uint(n: nat) | Bool(b: bool) | Text(s: string) | Texts(ss: seq<string>) | Nil
               | Pointer(address: nat, content: string)

  function HexDigit(d: nat): char
    requires d < 16
  {
    if d < 10 then '0' + d as char else 'a' + (d - 10) as char
  }

  function Hex(n: nat): string {
    (if n < 16 then "" else Hex(n / 16)) + [HexDigit(n % 16)]
  }

  /** %v of one argument inside a slice. */
  function Render(arg: Arg): string {
    match arg
    case Uint(n) => FormatNat(n)
    case Bool(b) => if b then "true" else "false"
    case Text(s) => s
    case Texts(ss) => "[" + Join(ss, ' ') + "]"
    case Nil => "<nil>"
    case Pointer(address, _) => "0x" + Hex(address)
  }

  function Join(parts: seq<string>, sep: char): string {
    if parts == [] then "" else if |parts| == 1 then parts[0] else parts[0] + [sep] + Join(parts[1..], sep)
  }

  function RenderAll(args: seq<Arg>): seq<string> {
    seq(|args|, i requires 0 <= i < |args| => Render(args[i]))
  }

  /** key(args) wraps the whole slice once more, so the key is "key-" and the slice in brackets. */
  function Key(args: seq<Arg>): string {
    "key-[" + Join(RenderAll(args), ' ') + "]"
  }

  // ---------------------------------------------------------------- joining and splitting

  function Pieces(parts: seq<string>, sep: char): seq<string> {
    if parts == [] then [] else Split(parts[0], sep) + Pieces(parts[1..], sep)
  }

  lemma {:induction false} SplitConcat(a: string, sep: char, b: string)
    ensures Split(a + [sep] + b, sep) == Split(a, sep) + Split(b, sep)
  {
    var s := a + [sep] + b;
    if a == "" {
      assert s[1..] == b;
    } else {
      assert s[1..] == a[1..] + [sep] + b;
      SplitConcat(a[1..], sep, b);
    }
  }

  lemma {:induction false} SplitJoin(parts: seq<string>, sep: char)
    requires parts != []
    ensures Split(Join(parts, sep), sep) == Pieces(parts, sep)
  {
    if |parts| == 1 {
      assert Pieces(parts[1..], sep) == [];
    } else {
      SplitJoin(parts[1..], sep);
      SplitConcat(parts[0], sep, Join(parts[1..], sep));
    }
  }

  lemma {:induction false} JoinSplit(s: string, sep: char)
    ensures Join(Split(s, sep), sep) == s
  {
    if s != "" {
      JoinSplit(s[1..], sep);
      var parts := Split(s[1..], sep);
      if s[0] == sep {
        assert ([""] + parts)[1..] == parts;
        assert s == [sep] + s[1..];
      } else {
        assert ([[s[0]] + parts[0]] + parts[1..])[1..] == parts[1..];
        assert s == [s[0]] + s[1..];
      }
    }
  }

  lemma {:induction false} PiecesConcat(a: seq<string>, b: seq<string>, sep: char)
    ensures Pieces(a + b, sep) == Pieces(a, sep) + Pieces(b, sep)
  {
    if a == [] {
      assert a + b == b;
    } else {
      assert (a + b)[1..] == a[1..] + b;
      PiecesConcat(a[1..], b, sep);
    }
  }

  lemma {:induction false} PiecesWithout(parts: seq<string>, sep: char)
    requires forall i :: 0 <= i < |parts| ==> sep !in parts[i]
    ensures Pieces(parts, sep) == parts
  {
    if parts != [] {
      SplitWithout(parts[0], sep);
      PiecesWithout(parts[1..], sep);
    }
  }

  // ---------------------------------------------------------------- injectivity

  /** Numbers, booleans and nil render without spaces and differently from each other. */
  predicate Plain(arg: Arg) {
    arg.Uint? || arg.Bool? || arg.Nil?
  }

  lemma PlainRendering(a: Arg, b: Arg)
    requires Plain(a) && Plain(b)
    ensures ' ' !in Render(a)
    ensures Render(a) == Render(b) <==> a == b
  {
    hide FormatNat, Value;
    if a.Uint? {
      DigitsWithout(Render(a), ' ');
      assert IsDigit(Render(a)[0]);
    }
    if b.Uint? {
      assert IsDigit(Render(b)[0]);
    }
  }

  lemma PlainsRendering(args: seq<Arg>)
    requires forall i :: 0 <= i < |args| ==> Plain(args[i])
    ensures Pieces(RenderAll(args), ' ') == RenderAll(args)
  {
    forall i | 0 <= i < |args|
      ensures ' ' !in RenderAll(args)[i]
    {
      PlainRendering(args[i], args[i]);
    }
    PiecesWithout(RenderAll(args), ' ');
  }

  lemma PlainsInjective(a: seq<Arg>, b: seq<Arg>)
    requires |a| == |b| && RenderAll(a) == RenderAll(b)
    requires forall i :: 0 <= i < |a| ==> Plain(a[i]) && Plain(b[i])
    ensures a == b
  {
    forall i | 0 <= i < |a|
      ensures a[i] == b[i]
    {
      assert RenderAll(a)[i] == RenderAll(b)[i];
      PlainRendering(a[i], b[i]);
    }
  }

  lemma KeyPieces(pre: seq<Arg>, s: string, post: seq<Arg>)
    requires (forall i :: 0 <= i < |pre| ==> Plain(pre[i])) && (forall i :: 0 <= i < |post| ==> Plain(post[i]))
    ensures Split(Join(RenderAll(pre + [Text(s)] + post), ' '), ' ')
         == RenderAll(pre) + Split(s, ' ') + RenderAll(post)
  {
    var parts := RenderAll(pre) + [s] + RenderAll(post);
    RenderConcat(pre + [Text(s)], post);
    RenderConcat(pre, [Text(s)]);
    assert RenderAll([Text(s)]) == [s];
    PlainsRendering(pre);
    PlainsRendering(post);
    OnePiece(s, ' ');
    hide Split, Join, Pieces, RenderAll;
    SplitJoin(parts, ' ');
    PiecesConcat(RenderAll(pre) + [s], RenderAll(post), ' ');
    PiecesConcat(RenderAll(pre), [s], ' ');
  }

  lemma RenderConcat(a: seq<Arg>, b: seq<Arg>)
    ensures RenderAll(a + b) == RenderAll(a) + RenderAll(b)
  {
    hide Render;
  }

  lemma OnePiece(s: string, sep: char)
    ensures Pieces([s], sep) == Split(s, sep)
  {
    assert Pieces([s][1..], sep) == [];
  }

  lemma SameBody(a: string, b: string)
    requires "key-[" + a + "]" == "key-[" + b + "]"
    ensures a == b
  {
    assert |a| == |b|;
    forall i | 0 <= i < |a|
      ensures a[i] == b[i]
    {
      assert a[i] == ("key-[" + a + "]")[5 + i];
      assert b[i] == ("key-[" + b + "]")[5 + i];
    }
  }

  lemma SamePieces(p: seq<string>, x: seq<string>, q: seq<string>, p': seq<string>, x': seq<string>, q': seq<string>)
    requires |p| == |p'| && |q| == |q'| && p + x + q == p' + x' + q'
    ensures p == p' && x == x' && q == q'
  {
    var s := p + x + q;
    assert |x| == |x'|;
    assert p == s[..|p|] && p' == s[..|p|];
    assert x == s[|p|..|p| + |x|] && x' == s[|p|..|p| + |x|];
    assert q == s[|p| + |x|..] && q' == s[|p| + |x|..];
  }

  /**
   * Keys are injective on argument lists of plain arguments with one text among them at a fixed place:
   * (epoch, address), (hash, isShort), (address, count, nil), and the like.
   */
  lemma KeyInjective(pre: seq<Arg>, s: string, post: seq<Arg>, pre': seq<Arg>, s': string, post': seq<Arg>)
    requires |pre| == |pre'| && |post| == |post'|
    requires forall i :: 0 <= i < |pre| ==> Plain(pre[i]) && Plain(pre'[i])
    requires forall i :: 0 <= i < |post| ==> Plain(post[i]) && Plain(post'[i])
    requires Key(pre + [Text(s)] + post) == Key(pre' + [Text(s')] + post')
    ensures pre == pre' && s == s' && post == post'
  {
    SameBody(Join(RenderAll(pre + [Text(s)] + post), ' '), Join(RenderAll(pre' + [Text(s')] + post'), ' '));
    KeyPieces(pre, s, post);
    KeyPieces(pre', s', post');
    hide Split, RenderAll, Join;
    SamePieces(RenderAll(pre), Split(s, ' '), RenderAll(post), RenderAll(pre'), Split(s', ' '), RenderAll(post'));
    PlainsInjective(pre, pre');
    PlainsInjective(post, post');
    JoinSplit(s, ' ');
    JoinSplit(s', ' ');
  }

  /** A text without spaces is as good as a plain argument. */
  predicate SpaceFree(arg: Arg) {
    Plain(arg) || (arg.Text? && ' ' !in arg.s)
  }

  lemma SpaceFreeRendering(args: seq<Arg>)
    requires forall i :: 0 <= i < |args| ==> SpaceFree(args[i])
    ensures Pieces(RenderAll(args), ' ') == RenderAll(args)
  {
    hide Pieces;
    forall i | 0 <= i < |args|
      ensures ' ' !in RenderAll(args)[i]
    {
      if Plain(args[i]) {
        PlainRendering(args[i], args[i]);
      }
    }
    PiecesWithout(RenderAll(args), ' ');
  }

  /** Keys are injective on lists with any number of texts without spaces, at the same places. */
  lemma SpaceFreeKeyInjective(a: seq<Arg>, b: seq<Arg>)
    requires |a| == |b| && Key(a) == Key(b)
    requires forall i :: 0 <= i < |a| ==> SpaceFree(a[i]) && SpaceFree(b[i]) && a[i].Text? == b[i].Text?
    ensures a == b
  {
    SameBody(Join(RenderAll(a), ' '), Join(RenderAll(b), ' '));
    if a != [] {
      SplitJoin(RenderAll(a), ' ');
      SplitJoin(RenderAll(b), ' ');
      SpaceFreeRendering(a);
      SpaceFreeRendering(b);
      hide Split, Join;
      forall i | 0 <= i < |a|
        ensures a[i] == b[i]
      {
        assert RenderAll(a)[i] == RenderAll(b)[i];
        if Plain(a[i]) {
          PlainRendering(a[i], b[i]);
        }
      }
    }
  }

  /** In particular on lists of as many plain arguments without any text. */
  lemma PlainKeyInjective(a: seq<Arg>, b: seq<Arg>)
    requires |a| == |b| && forall i :: 0 <= i < |a| ==> Plain(a[i]) && Plain(b[i])
    requires Key(a) == Key(b)
    ensures a == b
  {
    hide Key;
    SpaceFreeKeyInjective(a, b);
  }

  lemma JoinTwo(a: string, b: string, sep: char)
    ensures Join([a, b], sep) == a + [sep] + b
  {
    assert [a, b][1..] == [b];
  }

  /** Two texts are already too many: a space may belong to either. */
  lemma TwoTextsCollide(a: string, b: string, c: string)
    ensures Key([Text(a + " " + b), Text(c)]) == Key([Text(a), Text(b + " " + c)])
  {
    var p, q := RenderAll([Text(a + " " + b), Text(c)]), RenderAll([Text(a), Text(b + " " + c)]);
    assert p == [a + " " + b, c] && q == [a, b + " " + c];
    JoinTwo(a + " " + b, c, ' ');
    JoinTwo(a, b + " " + c, ' ');
    assert (a + " " + b) + [' '] + c == a + [' '] + (b + " " + c);
  }

  lemma JoinFirst(a: string, rest: seq<string>, sep: char)
    requires rest != []
    ensures Join([a] + rest, sep) == a + [sep] + Join(rest, sep)
  {
    assert ([a] + rest)[1..] == rest;
  }

  lemma RenderThree(n: nat, s: string, b: bool)
    ensures RenderAll([Uint(n), Text(s), Bool(b)]) == [FormatNat(n), s, if b then "true" else "false"]
    ensures RenderAll([Nil]) == ["<nil>"]
  {
    hide FormatNat;
  }

  /** What a key looks like: every argument as it is printed, inside one bracketed list. */
  lemma KeyLooksLike(n: nat, s: string, b: bool)
    ensures Key([Uint(n), Text(s), Bool(b)])
         == "key-[" + (FormatNat(n) + " " + (s + " " + (if b then "true" else "false"))) + "]"
    ensures Key([Nil]) == "key-[<nil>]"
  {
    RenderThree(n, s, b);
    var a, c := FormatNat(n), if b then "true" else "false";
    assert [a] + ([s] + [c]) == [a, s, c];
    hide RenderAll, FormatNat;
    JoinFirst(a, [s] + [c], ' ');
    JoinFirst(s, [c], ' ');
    assert a + [' '] + (s + [' '] + c) == a + " " + (s + " " + c);
    assert Join(["<nil>"], ' ') == "<nil>" && Join([c], ' ') == c;
  }

  /** A list of texts renders like the list of their words. */
  lemma ListsCollide(a: string, b: string)
    ensures Key([Texts([a + " " + b])]) == Key([Texts([a, b])])
  {
    JoinTwo(a, b, ' ');
    assert Render(Texts([a + " " + b])) == Render(Texts([a, b]));
    hide Render;
    assert RenderAll([Texts([a + " " + b])]) == RenderAll([Texts([a, b])]);
  }

  /** A pointer's key does not depend on what it points to. */
  lemma PointersCollide(pre: seq<Arg>, address: nat, content: string, other: string)
    ensures Key(pre + [Pointer(address, content)]) == Key(pre + [Pointer(address, other)])
  {
    var a, b := pre + [Pointer(address, content)], pre + [Pointer(address, other)];
    forall i | 0 <= i < |a|
      ensures RenderAll(a)[i] == RenderAll(b)[i]
    {
      assert i < |pre| ==> a[i] == b[i];
    }
    assert RenderAll(a) == RenderAll(b);
  }
}
