/** `check_balance` of scripts/check_solidity.py: a stack run over the stripped text. */
module BracketCheck {
  import opened Stripper
  import opened Lexer

  datatype Error =
    | Unmatched(line: nat, ch: char)
    | Mismatched(line: nat, expected: char, opener: char, openerLine: nat, got: char)
    | Unclosed(line: nat, opener: char)

  type Stack = seq<(char, nat)>

  predicate IsOpener(c: char) {
    c == '{' || c == '(' || c == '['
  }

  predicate IsCloser(c: char) {
    c == '}' || c == ')' || c == ']'
  }

  function CloserOf(c: char): char {
    if c == '{' then '}' else if c == '(' then ')' else ']'
  }

  // ----- the check

  function UnclosedErrors(stack: Stack): seq<Error> {
    if stack == [] then []
    else UnclosedErrors(stack[..|stack| - 1]) + [Unclosed(stack[|stack| - 1].1, stack[|stack| - 1].0)]
  }

  /** The stack after one character. */
  function StackAfter(stack: Stack, line: nat, c: char): Stack {
    if IsOpener(c) then stack + [(c, line)]
    else if IsCloser(c) && stack != [] then stack[..|stack| - 1]
    else stack
  }

  /** The errors one character gives rise to: none or one. */
  function ErrorsAt(stack: Stack, line: nat, c: char): seq<Error> {
    if !IsCloser(c) then []
    else if stack == [] then [Unmatched(line, c)]
    else
      var (opener, openerLine) := stack[|stack| - 1];
      if CloserOf(opener) != c then [Mismatched(line, CloserOf(opener), opener, openerLine, c)] else []
  }

  function CheckFrom(stack: Stack, line: nat, t: string): seq<Error>
    decreases |t|
  {
    if t == [] then UnclosedErrors(stack)
    else
      ErrorsAt(stack, line, t[0])
      + CheckFrom(StackAfter(stack, line, t[0]), if t[0] == '\n' then line + 1 else line, t[1..])
  }

  method CheckBalance(text: string) returns (errors: seq<Error>)
    ensures errors == CheckFrom([], 1, Strip(text))
  {
    errors := [];
    var cleaned := StripStringsAndComments(text);
    var stack: Stack, line: nat := [], 1;
    ghost var total := CheckFrom([], 1, cleaned);
    assert cleaned[0..] == cleaned;
    for i := 0 to |cleaned|
      invariant Remaining(errors, stack, line, cleaned, i, total)
    {
      RemainingStep(errors, stack, line, cleaned, i, total);
      var found;
      stack, found := CheckCharacter(stack, line, cleaned[i]);
      errors := errors + found;
      if cleaned[i] == '\n' {
        line := line + 1;
      }
    }
    var left := ReportUnclosed(stack);
    errors := errors + left;
  }

  method CheckCharacter(stack: Stack, line: nat, ch: char) returns (after: Stack, errors: seq<Error>)
    ensures after == StackAfter(stack, line, ch)
    ensures errors == ErrorsAt(stack, line, ch)
  {
    after, errors := stack, [];
    if IsOpener(ch) {
      after := stack + [(ch, line)];
    } else if IsCloser(ch) {
      if stack == [] {
        errors := [Unmatched(line, ch)];
      } else {
        var (opener, openerLine) := stack[|stack| - 1];
        after := stack[..|stack| - 1];
        if CloserOf(opener) != ch {
          errors := [Mismatched(line, CloserOf(opener), opener, openerLine, ch)];
        }
      }
    }
  }

  method ReportUnclosed(stack: Stack) returns (errors: seq<Error>)
    ensures errors == UnclosedErrors(stack)
  {
    errors := [];
    for k := 0 to |stack|
      invariant errors == UnclosedErrors(stack[..k])
    {
      assert stack[..k + 1][..k] == stack[..k];
      errors := errors + [Unclosed(stack[k].1, stack[k].0)];
    }
    assert stack[..|stack|] == stack;
  }

  /** What the rest of the text still adds completes the total. */
  ghost predicate Remaining(errors: seq<Error>, stack: Stack, line: nat, t: string, i: nat, total: seq<Error>)
    requires i <= |t|
  {
    errors + CheckFrom(stack, line, t[i..]) == total
  }

  lemma RemainingStep(errors: seq<Error>, stack: Stack, line: nat, t: string, i: nat, total: seq<Error>)
    requires i < |t| && Remaining(errors, stack, line, t, i, total)
    ensures Remaining(errors + ErrorsAt(stack, line, t[i]), StackAfter(stack, line, t[i]),
                      if t[i] == '\n' then line + 1 else line, t, i + 1, total)
  {}

  lemma CheckStep(stack: Stack, line: nat, t: string, i: nat)
    requires i < |t|
    ensures CheckFrom(stack, line, t[i..])
         == ErrorsAt(stack, line, t[i])
            + CheckFrom(StackAfter(stack, line, t[i]), if t[i] == '\n' then line + 1 else line, t[i + 1..])
  {}

  // ----- the bracket language

  /** Derivations of the balanced words over three kinds of brackets. */
  datatype Word =
    | Empty | Join(first: Word, second: Word)
    | Braces(inner: Word) | Parens(inner: Word) | Squares(inner: Word)

  function Yield(w: Word): string {
    match w
    case Empty => []
    case Join(first, second) => Yield(first) + Yield(second)
    case Braces(inner) => "{" + Yield(inner) + "}"
    case Parens(inner) => "(" + Yield(inner) + ")"
    case Squares(inner) => "[" + Yield(inner) + "]"
  }

  ghost predicate Balanced(brackets: string) {
    exists w :: Yield(w) == brackets
  }

  function Wrapped(opener: char, inner: Word): Word {
    if opener == '{' then Braces(inner) else if opener == '(' then Parens(inner) else Squares(inner)
  }

  lemma YieldOfWrapped(opener: char, inner: Word)
    requires IsOpener(opener)
    ensures Yield(Wrapped(opener, inner)) == [opener] + Yield(inner) + [CloserOf(opener)]
  {}

  function Brackets(t: string): string {
    if t == [] then []
    else if t[0] in "{}()[]" then [t[0]] + Brackets(t[1..])
    else Brackets(t[1..])
  }

  /** Whether the stack of openers empties exactly over these brackets. */
  ghost predicate Accepts(openers: string, brackets: string)
    decreases |brackets|
  {
    if brackets == [] then openers == []
    else if IsOpener(brackets[0]) then Accepts(openers + [brackets[0]], brackets[1..])
    else
      && openers != [] && brackets[0] == CloserOf(openers[|openers| - 1])
      && Accepts(openers[..|openers| - 1], brackets[1..])
  }

  function Openers(stack: Stack): (r: string)
    ensures |r| == |stack|
  {
    seq<char>(|stack|, i requires 0 <= i < |stack| => stack[i].0)
  }

  lemma {:induction false} SilentExactlyWhenAccepted(stack: Stack, line: nat, t: string)
    requires forall i :: 0 <= i < |stack| ==> IsOpener(stack[i].0)
    ensures CheckFrom(stack, line, t) == [] <==> Accepts(Openers(stack), Brackets(t))
    decreases |t|
  {
    if t == [] {
      assert Brackets(t) == [];
    } else {
      var c := t[0];
      var next := if c == '\n' then line + 1 else line;
      SilentExactlyWhenAccepted(StackAfter(stack, line, c), next, t[1..]);
      AcceptsStep(stack, line, t);
    }
  }

  lemma AcceptsStep(stack: Stack, line: nat, t: string)
    requires t != []
    ensures Accepts(Openers(stack), Brackets(t))
            <==> ErrorsAt(stack, line, t[0]) == [] && Accepts(Openers(StackAfter(stack, line, t[0])), Brackets(t[1..]))
  {
    var c := t[0];
    if IsOpener(c) {
      assert Openers(stack + [(c, line)]) == Openers(stack) + [c];
      assert Brackets(t)[1..] == Brackets(t[1..]);
    } else if IsCloser(c) {
      assert Brackets(t)[1..] == Brackets(t[1..]);
      if stack != [] {
        assert Openers(stack[..|stack| - 1]) == Openers(stack)[..|stack| - 1];
      }
    } else {
      assert Brackets(t) == Brackets(t[1..]);
    }
  }

  lemma {:induction false} AcceptsBalanced(openers: string, w: Word, rest: string)
    ensures Accepts(openers, Yield(w) + rest) == Accepts(openers, rest)
    decreases w, 0
  {
    match w
    case Empty =>
      assert Yield(w) + rest == rest;
    case Join(first, second) =>
      assert Yield(w) + rest == Yield(first) + (Yield(second) + rest);
      AcceptsBalanced(openers, first, Yield(second) + rest);
      AcceptsBalanced(openers, second, rest);
    case Braces(inner) => AcceptsWrapped(openers, '{', inner, '}', rest);
    case Parens(inner) => AcceptsWrapped(openers, '(', inner, ')', rest);
    case Squares(inner) => AcceptsWrapped(openers, '[', inner, ']', rest);
  }

  lemma {:induction false} AcceptsWrapped(openers: string, opener: char, inner: Word, closer: char, rest: string)
    requires IsOpener(opener) && CloserOf(opener) == closer
    ensures Accepts(openers, [opener] + Yield(inner) + [closer] + rest) == Accepts(openers, rest)
    decreases inner, 1
  {
    var after := [closer] + rest;
    var all := [opener] + Yield(inner) + [closer] + rest;
    assert all == [opener] + (Yield(inner) + after);
    assert all[1..] == Yield(inner) + after;
    AcceptsBalanced(openers + [opener], inner, after);
    assert after[1..] == rest;
    assert (openers + [opener])[..|openers|] == openers;
  }

  lemma YieldOfJoin(brackets: string, opener: char, inner: Word, after: string, second: Word, rest: string)
    requires brackets != [] && brackets[0] == opener && IsOpener(opener)
    requires brackets[1..] == Yield(inner) + [CloserOf(opener)] + after
    requires after == Yield(second) + rest
    ensures brackets == Yield(Join(Wrapped(opener, inner), second)) + rest
  {
    YieldOfWrapped(opener, inner);
    assert brackets == [opener] + brackets[1..];
  }

  /** An accepted word closes the innermost opener after a balanced word. */
  lemma {:induction false} AcceptedSplits(openers: string, brackets: string) returns (w: Word, rest: string)
    requires openers != [] && Accepts(openers, brackets)
    ensures brackets == Yield(w) + [CloserOf(openers[|openers| - 1])] + rest
    ensures Accepts(openers[..|openers| - 1], rest)
    decreases |brackets|
  {
    if IsOpener(brackets[0]) {
      var opener := brackets[0];
      var inner, after := AcceptedSplits(openers + [opener], brackets[1..]);
      assert (openers + [opener])[..|openers|] == openers;
      var second;
      second, rest := AcceptedSplits(openers, after);
      w := Join(Wrapped(opener, inner), second);
      YieldOfJoin(brackets, opener, inner, after, second, [CloserOf(openers[|openers| - 1])] + rest);
    } else {
      w, rest := Empty, brackets[1..];
    }
  }

  lemma {:induction false} AcceptedIsBalanced(brackets: string) returns (w: Word)
    requires Accepts([], brackets)
    ensures Yield(w) == brackets
    decreases |brackets|
  {
    if brackets == [] {
      w := Empty;
    } else {
      var opener := brackets[0];
      var inner, after := AcceptedSplits([] + [opener], brackets[1..]);
      assert ([] + [opener])[..0] == [];
      var second := AcceptedIsBalanced(after);
      w := Join(Wrapped(opener, inner), second);
      YieldOfJoin(brackets, opener, inner, after, second, []);
    }
  }

  lemma AcceptsExactlyBalanced(brackets: string)
    ensures Accepts([], brackets) <==> Balanced(brackets)
  {
    if Accepts([], brackets) {
      var w := AcceptedIsBalanced(brackets);
    }
    if w :| Yield(w) == brackets {
      AcceptsBalanced([], w, []);
      assert Yield(w) + [] == brackets;
    }
  }

  // ----- the brackets of the code

  /** The brackets at the places the automaton calls code. */
  function CodeBrackets(s: State, t: string): string
    decreases |t|
  {
    if t == [] then []
    else
      var rest := CodeBrackets(Next(s, t[0], t[1..]), t[1..]);
      if IsCode(s, t[0], t[1..]) && t[0] in "{}()[]" then [t[0]] + rest else rest
  }

  lemma {:induction false} ScanKeepsCodeBrackets(s: State, t: string)
    ensures Brackets(Scan(s, t)) == CodeBrackets(s, t)
    decreases |t|
  {
    if t != [] {
      OneStep(s, t);
      assert Scan(s, t)[1..] == Scan(Next(s, t[0], t[1..]), t[1..]);
      ScanKeepsCodeBrackets(Next(s, t[0], t[1..]), t[1..]);
    }
  }

  lemma {:induction false} BracketsConcat(a: string, b: string)
    ensures Brackets(a + b) == Brackets(a) + Brackets(b)
  {
    if a == [] {
      assert a + b == b;
    } else {
      assert (a + b)[1..] == a[1..] + b;
      BracketsConcat(a[1..], b);
    }
  }

  lemma OpenCommentHidesNoBracket(t: string)
    requires CommentLeftOpen(t)
    ensures Brackets(Strip(t)) == Brackets(Scan(InCode, t))
  {
    var scan := Scan(InCode, t);
    StripIsScan(t);
    assert Brackets("  ") == [] by { assert "  "[1..] == " "; }
    if StateAfter(InCode, t) == InBlock(true) {
      var front, last := scan[..|scan| - 1], scan[|scan| - 1];
      LastIsBlank(t);
      assert scan == front + [last];
      BracketsConcat(front, [last]);
      BracketsConcat(front, "  ");
    } else {
      BracketsConcat(scan, "  ");
    }
  }

  lemma StripKeepsCodeBrackets(t: string)
    ensures Brackets(Strip(t)) == CodeBrackets(InCode, t)
  {
    ScanKeepsCodeBrackets(InCode, t);
    if CommentLeftOpen(t) {
      OpenCommentHidesNoBracket(t);
    } else {
      StripIsScan(t);
    }
  }

  lemma LastIsBlank(t: string)
    requires t != [] && StateAfter(InCode, t) == InBlock(true)
    ensures var c := Scan(InCode, t)[|t| - 1]; c == ' ' || c == '\n'
    ensures Scan(InCode, t)[|t| - 1] == Blank(t[|t| - 1])
  {
    StateAtEnd(InCode, t);
    ScanAt(InCode, t, |t| - 1);
    assert t[|t| - 1 + 1..] == [];
  }

  /** No error is reported exactly when the brackets of the code, strings and comments
      left aside, form a balanced word; this holds for every text, closed comments or not. */
  lemma SilentExactlyWhenBalanced(text: string)
    ensures CheckFrom([], 1, Strip(text)) == [] <==> Balanced(CodeBrackets(InCode, text))
  {
    SilentExactlyWhenAccepted([], 1, Strip(text));
    assert Openers([]) == [];
    StripKeepsCodeBrackets(text);
    AcceptsExactlyBalanced(CodeBrackets(InCode, text));
  }

  // ----- the lines errors are reported for

  function LineBreaks(t: string): nat {
    if t == [] then 0 else (if t[0] == '\n' then 1 else 0) + LineBreaks(t[1..])
  }

  /** The line of character `i`, counted from one. */
  function LineOf(t: string, i: nat): nat
    requires i <= |t|
  {
    1 + LineBreaks(t[..i])
  }

  lemma {:induction false} LineBreaksConcat(a: string, b: string)
    ensures LineBreaks(a + b) == LineBreaks(a) + LineBreaks(b)
  {
    if a == [] {
      assert a + b == b;
    } else {
      assert (a + b)[1..] == a[1..] + b;
      LineBreaksConcat(a[1..], b);
    }
  }

  lemma LineOfNext(t: string, i: nat)
    requires i < |t|
    ensures LineOf(t, i + 1) == if t[i] == '\n' then LineOf(t, i) + 1 else LineOf(t, i)
  {
    assert t[..i + 1] == t[..i] + [t[i]];
    LineBreaksConcat(t[..i], [t[i]]);
  }

  /** Of the first `i` characters, the line breaks that follow a backslash inside a string
      literal. */
  function EscapedBreaks(s: State, t: string, i: nat): nat
    requires i <= |t|
    decreases i
  {
    if i == 0 then 0
    else
      (if s.Escaped? && t[0] == '\n' then 1 else 0)
      + EscapedBreaks(Next(s, t[0], t[1..]), t[1..], i - 1)
  }

  lemma {:induction false} ScanLosesEscapedBreaks(s: State, t: string, i: nat)
    requires i <= |t|
    ensures LineBreaks(Scan(s, t)[..i]) + EscapedBreaks(s, t, i) == LineBreaks(t[..i])
    decreases i
  {
    if i > 0 {
      var n := Next(s, t[0], t[1..]);
      OneStep(s, t);
      ScanLosesEscapedBreaks(n, t[1..], i - 1);
      assert Scan(s, t)[..i][1..] == Scan(n, t[1..])[..i - 1];
      assert t[..i][1..] == t[1..][..i - 1];
    }
  }

  /** A line break that ends a text inside an open comment. */
  predicate EndsInComment(t: string) {
    CommentLeftOpen(t) && t != [] && t[|t| - 1] == '\n'
  }

  lemma OpenCommentLosesLastBreak(t: string)
    requires CommentLeftOpen(t)
    ensures LineBreaks(Strip(t)) + (if EndsInComment(t) then 1 else 0) == LineBreaks(Scan(InCode, t))
  {
    var scan := Scan(InCode, t);
    StripIsScan(t);
    assert LineBreaks("  ") == 0 by { assert "  "[1..] == " "; }
    if StateAfter(InCode, t) == InBlock(true) {
      var front, last := scan[..|scan| - 1], scan[|scan| - 1];
      LastIsBlank(t);
      assert scan == front + [last];
      LineBreaksConcat(front, [last]);
      LineBreaksConcat(front, "  ");
    } else {
      StateIsOpening(t);
      LineBreaksConcat(scan, "  ");
    }
  }

  /** Stripping keeps the number of lines exactly when no string literal escapes a line
      break and the text does not end with a line break inside an open comment. */
  lemma LinesKeptExactly(t: string)
    ensures LineBreaks(Strip(t)) == LineBreaks(t) <==> EscapedBreaks(InCode, t, |t|) == 0 && !EndsInComment(t)
  {
    assert Scan(InCode, t)[..|t|] == Scan(InCode, t) && t[..|t|] == t;
    ScanLosesEscapedBreaks(InCode, t, |t|);
    if CommentLeftOpen(t) {
      OpenCommentLosesLastBreak(t);
    } else {
      StripIsScan(t);
    }
  }

  lemma StateIsOpening(t: string)
    requires t != [] && StateAfter(InCode, t) == InBlock(false)
    ensures t[|t| - 1] == '*'
  {
    StateAtEnd(InCode, t);
    OpeningAwaitsStar(InCode, t, |t| - 1);
  }

  lemma {:induction false} OpeningAwaitsStar(s: State, t: string, i: nat)
    requires i < |t| && StateAt(s, t, i) == Opening && s != Opening
    ensures t[i] == '*'
    decreases i
  {
    var n := Next(s, t[0], t[1..]);
    if n == Opening && i == 1 {
    } else if n != Opening {
      OpeningAwaitsStar(n, t[1..], i - 1);
    } else {
      var rest := t[1..];
      assert Next(n, rest[0], rest[1..]) == InBlock(false);
      OpeningAwaitsStar(InBlock(false), rest[1..], i - 2);
    }
  }

  /** In the stripped text a character's line is its line in the file, less the escaped
      line breaks before it. */
  lemma LinesShiftExactly(t: string, i: nat)
    requires i < |t|
    ensures i < |Strip(t)|
    ensures LineOf(Strip(t), i) + EscapedBreaks(InCode, t, i) == LineOf(t, i)
  {
    StripIsScan(t);
    assert Strip(t)[..i] == Scan(InCode, t)[..i];
    ScanLosesEscapedBreaks(InCode, t, i);
  }

  // ----- the errors that are reported

  /** The openers of the file's code that are still open before character `k`, the
      innermost one last. */
  function OpenBefore(text: string, k: nat): seq<nat>
    requires k <= |text|
  {
    if k == 0 then []
    else
      var open, c := OpenBefore(text, k - 1), text[k - 1];
      if !CodeAt(text, k - 1) then open
      else if c in "{([" then open + [k - 1]
      else if c in "})]" && open != [] then open[..|open| - 1]
      else open
  }

  lemma {:induction false} OpenersStandBefore(text: string, k: nat)
    requires k <= |text|
    ensures forall x :: 0 <= x < |OpenBefore(text, k)| ==>
              OpenBefore(text, k)[x] < k && IsOpener(text[OpenBefore(text, k)[x]])
  {
    if k > 0 {
      OpenersStandBefore(text, k - 1);
    }
  }

  /** The line reported for character `i` is its line in the file, less the escaped line
      breaks before it; so the two are equal exactly if there are none. */
  function ReportedLine(text: string, i: nat): (line: nat)
    requires i < |text|
    ensures line + EscapedBreaks(InCode, text, i) == LineOf(text, i)
  {
    LinesShiftExactly(text, i);
    LineOf(Strip(text), i)
  }

  predicate Match(opener: char, closer: char) {
    [opener, closer] == "{}" || [opener, closer] == "()" || [opener, closer] == "[]"
  }

  /** The error at a closer of the code: no opener is left, or the innermost one is of
      another kind. */
  ghost predicate FailsAt(text: string, i: nat, e: Error) {
    && i < |text| && CodeAt(text, i) && text[i] in "})]"
    && var open := OpenBefore(text, i);
       if open == [] then e == Unmatched(ReportedLine(text, i), text[i])
       else
         var j := open[|open| - 1];
         && j < i && !Match(text[j], text[i])
         && e.Mismatched? && Match(text[j], e.expected)
         && e == Mismatched(ReportedLine(text, i), e.expected, text[j], ReportedLine(text, j), text[i])
  }

  /** The error for an opener that is still open at the end. */
  ghost predicate LeftOpen(text: string, e: Error) {
    exists j :: j in OpenBefore(text, |text|) && j < |text| && e == Unclosed(ReportedLine(text, j), text[j])
  }

  function StackOf(text: string, open: seq<nat>): (r: Stack)
    requires forall x :: 0 <= x < |open| ==> open[x] < |text|
    ensures |r| == |open|
  {
    seq<(char, nat)>(|open|, x requires 0 <= x < |open| => (text[open[x]], ReportedLine(text, open[x])))
  }

  function StackBefore(text: string, k: nat): Stack
    requires k <= |text|
  {
    OpenersStandBefore(text, k);
    StackOf(text, OpenBefore(text, k))
  }

  /** Code characters stand at their places in the stripped text, and no other brackets. */
  lemma BracketsAreCode(text: string, i: nat)
    requires i < |text|
    ensures i < |Strip(text)|
    ensures CodeAt(text, i) ==> Strip(text)[i] == text[i]
    ensures !CodeAt(text, i) ==> !IsOpener(Strip(text)[i]) && !IsCloser(Strip(text)[i])
  {
    CodeKeepsItsPlace(text, i);
  }

  lemma StackStep(text: string, k: nat)
    requires k < |text|
    ensures k < |Strip(text)|
    ensures StackAfter(StackBefore(text, k), ReportedLine(text, k), Strip(text)[k]) == StackBefore(text, k + 1)
  {
    BracketsAreCode(text, k);
    OpenersStandBefore(text, k);
    OpenersStandBefore(text, k + 1);
  }

  lemma MatchExactly(opener: char, closer: char)
    requires IsOpener(opener)
    ensures Match(opener, closer) <==> CloserOf(opener) == closer
  {}

  lemma ErrorStep(text: string, k: nat, e: Error)
    requires k < |text|
    ensures k < |Strip(text)|
    ensures e in ErrorsAt(StackBefore(text, k), ReportedLine(text, k), Strip(text)[k]) <==> FailsAt(text, k, e)
  {
    BracketsAreCode(text, k);
    var c, open := Strip(text)[k], OpenBefore(text, k);
    OpenersStandBefore(text, k);
    if IsCloser(c) && open != [] {
      var opener := text[open[|open| - 1]];
      MatchExactly(opener, c);
      if e.Mismatched? {
        MatchExactly(opener, e.expected);
      }
    }
  }

  lemma {:induction false} UnclosedExactly(stack: Stack, e: Error)
    ensures e in UnclosedErrors(stack) <==> exists x :: 0 <= x < |stack| && e == Unclosed(stack[x].1, stack[x].0)
  {
    if stack != [] {
      var below, top := stack[..|stack| - 1], stack[|stack| - 1];
      UnclosedExactly(below, e);
      assert forall x :: 0 <= x < |below| ==> below[x] == stack[x];
    }
  }

  lemma LeftOpenExactly(text: string, e: Error)
    ensures e in UnclosedErrors(StackBefore(text, |text|)) <==> LeftOpen(text, e)
  {
    var open, stack := OpenBefore(text, |text|), StackBefore(text, |text|);
    OpenersStandBefore(text, |text|);
    UnclosedExactly(stack, e);
    if x :| 0 <= x < |stack| && e == Unclosed(stack[x].1, stack[x].0) {
      assert open[x] in open;
    }
    if LeftOpen(text, e) {
      var j :| j in open && j < |text| && e == Unclosed(ReportedLine(text, j), text[j]);
      var x :| 0 <= x < |open| && open[x] == j;
      assert stack[x] == (text[j], ReportedLine(text, j));
    }
  }

  lemma {:induction false} NothingAfterBlanks(stack: Stack, line: nat, t: string)
    requires forall i :: 0 <= i < |t| ==> t[i] == ' '
    ensures CheckFrom(stack, line, t) == UnclosedErrors(stack)
  {
    if t != [] {
      NothingAfterBlanks(stack, line, t[1..]);
    }
  }

  /** What an unclosed comment adds to the end is blank. */
  lemma BlankEnd(text: string)
    ensures |Strip(text)| >= |text| && forall i :: |text| <= i < |Strip(text)| ==> Strip(text)[i] == ' '
  {
    StripIsScan(text);
  }

  /** The error stems from a closer at or after `k`, or from an opener left at the end. */
  ghost predicate ReportedFrom(text: string, k: nat, e: Error) {
    (exists i: nat :: k <= i && FailsAt(text, i, e)) || LeftOpen(text, e)
  }

  lemma ReportedStep(text: string, k: nat, e: Error)
    ensures ReportedFrom(text, k, e) <==> FailsAt(text, k, e) || ReportedFrom(text, k + 1, e)
  {
    if i: nat :| k <= i && FailsAt(text, i, e) {
      assert i == k || k + 1 <= i;
    }
  }

  /** What the check still reports from character `k` on. */
  function ReportFrom(text: string, k: nat): seq<Error>
    requires k <= |text|
  {
    BlankEnd(text);
    CheckFrom(StackBefore(text, k), LineOf(Strip(text), k), Strip(text)[k..])
  }

  lemma ReportFromStart(text: string)
    ensures ReportFrom(text, 0) == CheckFrom([], 1, Strip(text))
  {
    var t := Strip(text);
    assert t[..0] == [] && t[0..] == t && StackBefore(text, 0) == [];
  }

  lemma ReportAtEnd(text: string, e: Error)
    ensures e in ReportFrom(text, |text|) <==> LeftOpen(text, e)
  {
    var t := Strip(text);
    BlankEnd(text);
    NothingAfterBlanks(StackBefore(text, |text|), LineOf(t, |text|), t[|text|..]);
    LeftOpenExactly(text, e);
  }

  lemma ReportStep(text: string, k: nat)
    requires k < |text|
    ensures k < |Strip(text)|
    ensures ReportFrom(text, k)
         == ErrorsAt(StackBefore(text, k), ReportedLine(text, k), Strip(text)[k]) + ReportFrom(text, k + 1)
  {
    BlankEnd(text);
    StackStep(text, k);
    LineOfNext(Strip(text), k);
    CheckStep(StackBefore(text, k), ReportedLine(text, k), Strip(text), k);
  }

  lemma {:induction false} ErrorsExactlyFrom(text: string, k: nat, e: Error)
    requires k <= |text|
    ensures e in ReportFrom(text, k) <==> ReportedFrom(text, k, e)
    decreases |text| - k
  {
    if k == |text| {
      ReportAtEnd(text, e);
    } else {
      ReportStep(text, k);
      ErrorStep(text, k, e);
      ErrorsExactlyFrom(text, k + 1, e);
      ReportedStep(text, k, e);
    }
  }

  /** The errors are exactly these: one for every closer of the file's code at which the
      run over its brackets fails, with the opener it meets there, and one for every opener
      left at the end; each with the lines of the brackets it names. */
  lemma ErrorsNameTheirLines(text: string, e: Error)
    ensures e in CheckFrom([], 1, Strip(text)) <==> (exists i: nat :: FailsAt(text, i, e)) || LeftOpen(text, e)
  {
    ReportFromStart(text);
    ErrorsExactlyFrom(text, 0, e);
    assert (exists i: nat :: FailsAt(text, i, e)) <==> exists i: nat :: 0 <= i && FailsAt(text, i, e);
  }

  // ----- their order

  lemma {:induction false} UnclosedInOrder(stack: Stack)
    ensures |UnclosedErrors(stack)| == |stack|
    ensures forall x :: 0 <= x < |stack| ==> UnclosedErrors(stack)[x] == Unclosed(stack[x].1, stack[x].0)
  {
    if stack != [] {
      UnclosedInOrder(stack[..|stack| - 1]);
    }
  }

  /** The characters at which the run fails. */
  ghost function Fails(text: string): nat -> bool {
    (i: nat) => exists e :: FailsAt(text, i, e)
  }

  /** These ascend and are, from `k` on, exactly those with the property. */
  ghost predicate IndicesAre(p: nat -> bool, k: nat, at: seq<nat>) {
    && (forall x, y :: 0 <= x < y < |at| ==> at[x] < at[y])
    && (forall i: nat :: i in at <==> k <= i && p(i))
  }

  /** First the errors at those characters in their order, then those for the openers left,
      the outermost one first. */
  ghost predicate ReportedInOrder(text: string, at: seq<nat>, errors: seq<Error>) {
    var open := OpenBefore(text, |text|);
    && |errors| == |at| + |open|
    && (forall x :: 0 <= x < |at| ==> FailsAt(text, at[x], errors[x]))
    && (forall x :: 0 <= x < |open| ==>
          open[x] < |text| && errors[|at| + x] == Unclosed(ReportedLine(text, open[x]), text[open[x]]))
  }

  lemma OneErrorAtMost(text: string, k: nat)
    requires k < |text|
    ensures k < |Strip(text)|
    ensures var errors := ErrorsAt(StackBefore(text, k), ReportedLine(text, k), Strip(text)[k]);
            && |errors| <= 1 && (errors != [] ==> FailsAt(text, k, errors[0]))
            && (errors == [] ==> !Fails(text)(k))
  {
    BracketsAreCode(text, k);
    var errors := ErrorsAt(StackBefore(text, k), ReportedLine(text, k), Strip(text)[k]);
    if errors != [] {
      ErrorStep(text, k, errors[0]);
    } else {
      forall e
        ensures !FailsAt(text, k, e)
      {
        ErrorStep(text, k, e);
      }
    }
  }

  lemma OneMoreIndex(p: nat -> bool, k: nat, at: seq<nat>)
    requires p(k) && IndicesAre(p, k + 1, at)
    ensures IndicesAre(p, k, [k] + at)
  {
    assert forall x :: 0 <= x < |at| ==> at[x] in at;
  }

  lemma OneMoreReport(text: string, k: nat, at: seq<nat>, errors: seq<Error>, e: Error)
    requires FailsAt(text, k, e) && ReportedInOrder(text, at, errors)
    ensures ReportedInOrder(text, [k] + at, [e] + errors)
  {}

  lemma NoMoreIndex(p: nat -> bool, k: nat, at: seq<nat>)
    requires !p(k) && IndicesAre(p, k + 1, at)
    ensures IndicesAre(p, k, at)
  {
    forall i: nat | k <= i && p(i)
      ensures i in at
    {
      assert i != k;
    }
  }

  lemma NoneAtEnd(text: string)
    ensures IndicesAre(Fails(text), |text|, [])
  {}

  lemma ReportAtEndInOrder(text: string)
    ensures ReportedInOrder(text, [], ReportFrom(text, |text|))
  {
    var t := Strip(text);
    BlankEnd(text);
    NothingAfterBlanks(StackBefore(text, |text|), LineOf(t, |text|), t[|text|..]);
    UnclosedInOrder(StackBefore(text, |text|));
    OpenersStandBefore(text, |text|);
  }

  lemma {:induction false} ReportInOrder(text: string, k: nat) returns (at: seq<nat>)
    requires k <= |text|
    ensures IndicesAre(Fails(text), k, at) && ReportedInOrder(text, at, ReportFrom(text, k))
    decreases |text| - k
  {
    if k == |text| {
      at := [];
      NoneAtEnd(text);
      ReportAtEndInOrder(text);
    } else {
      at := ReportInOrder(text, k + 1);
      ReportStep(text, k);
      OneErrorAtMost(text, k);
      var errors := ErrorsAt(StackBefore(text, k), ReportedLine(text, k), Strip(text)[k]);
      if errors == [] {
        NoMoreIndex(Fails(text), k, at);
        assert ReportFrom(text, k) == ReportFrom(text, k + 1);
      } else {
        OneMoreIndex(Fails(text), k, at);
        OneMoreReport(text, k, at, ReportFrom(text, k + 1), errors[0]);
        assert errors == [errors[0]];
        at := [k] + at;
      }
    }
  }

  /** The check reports one error for every closer at which the run over the file's brackets
      fails, in the order of the file, and then one for every opener left, from the bottom
      of the stack; and no others. */
  lemma ErrorsInOrder(text: string) returns (at: seq<nat>)
    ensures IndicesAre(Fails(text), 0, at) && ReportedInOrder(text, at, CheckFrom([], 1, Strip(text)))
  {
    ReportFromStart(text);
    at := ReportInOrder(text, 0);
  }

  /** A string literal with an escaped line break: one line break is lost. */
  lemma EscapedBreakIsLost()
    ensures LineBreaks("\"\\\n\"") == 1 && LineBreaks(Strip("\"\\\n\"")) == 0
  {}

  /** A line break at the end of a comment that is never closed: it is lost as well. */
  lemma OpenCommentLosesBreak()
    ensures LineBreaks("/*\n") == 1 && LineBreaks(Strip("/*\n")) == 0
  {
    assert "/*\n"[2..] == "\n";
    assert Strip("/*\n") == "    ";
  }
}
