/** `strip_strings_and_comments` of scripts/check_solidity.py. */
module Stripper {

  predicate IsQuote(c: char) {
    c == '"' || c == '\''
  }

  function Blank(c: char): char {
    if c == '\n' then '\n' else ' '
  }

  // ----- the loops

  /** Which of the source's loops is running. */
  datatype Loop = Code | Line | Block | Str(quote: char)

  /** What the source appends from here to the end of the text. */
  function StripFrom(loop: Loop, t: string): string
    decreases |t|
  {
    if t == [] then if loop == Block then "  " else []
    else
      match loop
      case Code =>
        if t[0] == '/' && |t| > 1 && t[1] == '/' then [' '] + StripFrom(Line, t[1..])
        else if t[0] == '/' && |t| > 1 && t[1] == '*' then "  " + StripFrom(Block, t[2..])
        else if IsQuote(t[0]) then [' '] + StripFrom(Str(t[0]), t[1..])
        else [t[0]] + StripFrom(Code, t[1..])
      case Line =>
        if t[0] != '\n' then [' '] + StripFrom(Line, t[1..]) else ['\n'] + StripFrom(Code, t[1..])
      case Block =>
        if |t| == 1 then "  "
        else if t[0] == '*' && t[1] == '/' then "  " + StripFrom(Code, t[2..])
        else [Blank(t[0])] + StripFrom(Block, t[1..])
      case Str(quote) =>
        if t[0] == quote then [' '] + StripFrom(Code, t[1..])
        else if t[0] == '\\' && |t| > 1 then "  " + StripFrom(loop, t[2..])
        else [Blank(t[0])] + StripFrom(loop, t[1..])
  }

  function Strip(t: string): string {
    StripFrom(Code, t)
  }

  method StripStringsAndComments(text: string) returns (out: string)
    ensures out == Strip(text)
  {
    out := [];
    var i, n := 0, |text|;
    while i < n
      invariant 0 <= i
      invariant out + (if i <= n then StripFrom(Code, text[i..]) else []) == Strip(text)
      decreases n - i
    {
      var ch := text[i];
      if ch == '/' && i + 1 < n && text[i + 1] == '/' {
        out, i := SkipLineComment(text, i, out);
      } else if ch == '/' && i + 1 < n && text[i + 1] == '*' {
        assert text[i..][2..] == text[i + 2..];
        assert out + ("  " + StripFrom(Block, text[i + 2..])) == out + "  " + StripFrom(Block, text[i + 2..]);
        out, i := SkipBlockComment(text, i + 2, out + "  ");
      } else if IsQuote(ch) {
        assert text[i..][1..] == text[i + 1..];
        assert out + ([' '] + StripFrom(Str(ch), text[i + 1..])) == out + [' '] + StripFrom(Str(ch), text[i + 1..]);
        out, i := SkipString(text, i + 1, ch, out + [' ']);
      } else {
        assert text[i..][1..] == text[i + 1..];
        out, i := out + [ch], i + 1;
      }
    }
    assert i == n ==> text[i..] == [];
  }

  method SkipLineComment(text: string, start: nat, before: string) returns (out: string, i: nat)
    requires start + 1 < |text| && text[start] == '/' && text[start + 1] == '/'
    ensures start < i <= |text|
    ensures out + StripFrom(Code, text[i..]) == before + StripFrom(Code, text[start..])
  {
    out, i := before, start;
    ghost var goal := before + StripFrom(Code, text[start..]);
    assert StripFrom(Code, text[start..]) == StripFrom(Line, text[start..]);
    while i < |text| && text[i] != '\n'
      invariant start <= i <= |text| && (i == start ==> text[i] == '/')
      invariant out + StripFrom(Line, text[i..]) == goal
    {
      assert text[i..][1..] == text[i + 1..];
      out, i := out + [' '], i + 1;
    }
    assert StripFrom(Line, text[i..]) == StripFrom(Code, text[i..]);
  }

  method SkipBlockComment(text: string, start: nat, before: string) returns (out: string, i: nat)
    requires start <= |text|
    ensures start <= i
    ensures out + (if i <= |text| then StripFrom(Code, text[i..]) else []) == before + StripFrom(Block, text[start..])
  {
    out, i := before, start;
    ghost var goal := before + StripFrom(Block, text[start..]);
    while i < |text| - 1 && !(text[i] == '*' && text[i + 1] == '/')
      invariant start <= i <= |text|
      invariant out + StripFrom(Block, text[i..]) == goal
    {
      assert text[i..][1..] == text[i + 1..];
      out, i := out + [Blank(text[i])], i + 1;
    }
    if i + 2 <= |text| {
      assert text[i..][2..] == text[i + 2..];
    }
    out, i := out + "  ", i + 2;
  }

  method SkipString(text: string, start: nat, quote: char, before: string) returns (out: string, i: nat)
    requires start <= |text|
    ensures start <= i <= |text|
    ensures out + StripFrom(Code, text[i..]) == before + StripFrom(Str(quote), text[start..])
  {
    out, i := before, start;
    ghost var goal := before + StripFrom(Str(quote), text[start..]);
    while i < |text| && text[i] != quote
      invariant start <= i <= |text|
      invariant out + StripFrom(Str(quote), text[i..]) == goal
    {
      if text[i] == '\\' && i + 1 < |text| {
        assert text[i..][2..] == text[i + 2..];
        out, i := out + "  ", i + 2;
      } else {
        assert text[i..][1..] == text[i + 1..];
        out, i := out + [Blank(text[i])], i + 1;
      }
    }
    if i < |text| {
      assert text[i..][1..] == text[i + 1..];
      out, i := out + [' '], i + 1;
    }
  }

  // ----- idempotence

  /** Nothing in the text starts a string or a comment. */
  ghost predicate Clean(t: string) {
    && (forall i :: 0 <= i < |t| ==> t[i] != '"' && t[i] != '\'')
    && (forall i :: 0 <= i < |t| - 1 && t[i] == '/' ==> t[i + 1] != '/' && t[i + 1] != '*')
  }

  predicate Harmless(c: char) {
    c != '/' && c != '*'
  }

  lemma CleanCons(c: char, t: string)
    requires Clean(t) && !IsQuote(c)
    requires c == '/' && t != [] ==> Harmless(t[0])
    ensures Clean([c] + t)
  {}

  lemma CleanBlanks(t: string)
    requires Clean(t)
    ensures Clean("  " + t)
  {}

  lemma {:induction false} StrippedIsClean(loop: Loop, t: string)
    ensures Clean(StripFrom(loop, t))
    ensures StripFrom(loop, t) != [] && (loop != Code || (t != [] && Harmless(t[0]))) ==>
            Harmless(StripFrom(loop, t)[0])
    decreases |t|
  {
    if t != [] {
      if |t| > 1 {
        CleanAfterTwo(loop, t);
      }
      CleanAfterOne(loop, t);
    }
  }

  lemma {:induction false} CleanAfterTwo(loop: Loop, t: string)
    requires |t| > 1
    ensures forall l: Loop :: Clean("  " + StripFrom(l, t[2..]))
    decreases |t|, 0
  {
    forall l: Loop
      ensures Clean("  " + StripFrom(l, t[2..]))
    {
      StrippedIsClean(l, t[2..]);
      CleanBlanks(StripFrom(l, t[2..]));
    }
  }

  lemma {:induction false} CleanAfterOne(loop: Loop, t: string)
    requires t != []
    ensures forall l: Loop :: Clean([' '] + StripFrom(l, t[1..])) && Clean(['\n'] + StripFrom(l, t[1..]))
    ensures !IsQuote(t[0]) && (t[0] == '/' && |t| > 1 ==> Harmless(t[1])) ==> Clean([t[0]] + StripFrom(Code, t[1..]))
    decreases |t|, 0
  {
    forall l: Loop
      ensures Clean([' '] + StripFrom(l, t[1..])) && Clean(['\n'] + StripFrom(l, t[1..]))
    {
      StrippedIsClean(l, t[1..]);
      CleanCons(' ', StripFrom(l, t[1..]));
      CleanCons('\n', StripFrom(l, t[1..]));
    }
    StrippedIsClean(Code, t[1..]);
    if !IsQuote(t[0]) && (t[0] == '/' && |t| > 1 ==> Harmless(t[1])) {
      CleanCons(t[0], StripFrom(Code, t[1..]));
    }
  }

  lemma {:induction false} CleanIsFixed(t: string)
    requires Clean(t)
    ensures Strip(t) == t
  {
    if t != [] {
      assert Clean(t[1..]) by {
        assert forall i :: 0 <= i < |t[1..]| ==> t[1..][i] == t[i + 1];
      }
      CleanIsFixed(t[1..]);
      assert t[0] != '"' && t[0] != '\'';
      assert |t| > 1 && t[0] == '/' ==> t[0 + 1] != '/' && t[0 + 1] != '*';
      assert t == [t[0]] + t[1..];
    }
  }

  /** The result holds no quote and no start of a comment, so stripping it again
      changes nothing. */
  lemma StripIsIdempotent(t: string)
    ensures Clean(Strip(t))
    ensures Strip(Strip(t)) == Strip(t)
  {
    StrippedIsClean(Code, t);
    CleanIsFixed(Strip(t));
  }
}
