/** A reference for the stripper: an automaton that reads one character at a time and
    says which characters are code.  The nested loops of the source are shown to
    render exactly what the automaton renders, except at the end of a text whose last
    block comment is never closed. */
module Lexer {
  import opened Stripper

  /** `Opening` and `Closing` await the second character of a block comment's
      delimiters; `InBlock(started)` says whether the comment has any content yet. */
  datatype State =
    | InCode | InLine | Opening | InBlock(started: bool) | Closing
    | InStr(quote: char) | Escaped(quote: char)

  function Next(s: State, c: char, more: string): State {
    match s
    case InCode =>
      if c == '/' && more != [] && more[0] == '/' then InLine
      else if c == '/' && more != [] && more[0] == '*' then Opening
      else if c == '"' || c == '\'' then InStr(c)
      else InCode
    case InLine => if c == '\n' then InCode else InLine
    case Opening => InBlock(false)
    case InBlock(_) => if c == '*' && more != [] && more[0] == '/' then Closing else InBlock(true)
    case Closing => InCode
    case InStr(quote) =>
      if c == quote then InCode
      else if c == '\\' && more != [] then Escaped(quote)
      else InStr(quote)
    case Escaped(quote) => InStr(quote)
  }

  /** Code proper, and the line break that ends a line comment. */
  predicate IsCode(s: State, c: char, more: string) {
    (s.InCode? && Next(s, c, more).InCode?) || (s.InLine? && c == '\n')
  }

  function Render(s: State, c: char, more: string): char {
    if IsCode(s, c, more) then c else if c == '\n' && !s.Escaped? then c else ' '
  }

  function Scan(s: State, t: string): (r: string)
    ensures |r| == |t|
    decreases |t|
  {
    if t == [] then [] else [Render(s, t[0], t[1..])] + Scan(Next(s, t[0], t[1..]), t[1..])
  }

  function StateAfter(s: State, t: string): State
    decreases |t|
  {
    if t == [] then s else StateAfter(Next(s, t[0], t[1..]), t[1..])
  }

  predicate CommentLeftOpen(t: string) {
    StateAfter(InCode, t).InBlock?
  }

  // ----- the loops render what the automaton renders

  /** How a loop's output relates to the automaton's, given the automaton's last state. */
  ghost predicate Agrees(strip: string, scan: string, last: State) {
    if last == InBlock(false) then strip == scan + "  "
    else if last == InBlock(true) then scan != [] && strip == scan[..|scan| - 1] + "  "
    else strip == scan
  }

  ghost predicate Corresponds(loop: Loop, s: State, t: string) {
    match loop
    case Code => s == InCode
    case Line => s == InLine
    case Block => s.InBlock? && (t == [] ==> !s.started)
    case Str(quote) => s == InStr(quote) && (quote == '"' || quote == '\'')
  }

  lemma AgreesPrefix(p: string, strip: string, scan: string, last: State)
    requires Agrees(strip, scan, last)
    ensures Agrees(p + strip, p + scan, last)
  {}

  lemma OneStep(s: State, t: string)
    requires t != []
    ensures var n := Next(s, t[0], t[1..]);
            Scan(s, t) == [Render(s, t[0], t[1..])] + Scan(n, t[1..]) && StateAfter(s, t) == StateAfter(n, t[1..])
  {}

  /** The three places where a loop consumes two characters at once. */
  predicate TakesTwo(loop: Loop, t: string) {
    && |t| > 1
    && match loop
       case Code => t[0] == '/' && t[1] == '*'
       case Line => false
       case Block => t[0] == '*' && t[1] == '/'
       case Str(quote) => t[0] != quote && t[0] == '\\'
  }

  function LoopAfterTwo(loop: Loop): Loop {
    match loop
    case Code => Block
    case Block => Code
    case _ => loop
  }

  function LoopAfterOne(loop: Loop, t: string): Loop
    requires t != []
  {
    match loop
    case Code =>
      if t[0] == '/' && |t| > 1 && t[1] == '/' then Line
      else if t[0] == '"' || t[0] == '\'' then Str(t[0])
      else Code
    case Line => if t[0] == '\n' then Code else Line
    case Block => Block
    case Str(quote) => if t[0] == quote then Code else loop
  }

  lemma TwoAtOnce(loop: Loop, s: State, t: string)
    requires Corresponds(loop, s, t) && TakesTwo(loop, t)
    ensures var m := Next(Next(s, t[0], t[1..]), t[1], t[2..]);
            && Corresponds(LoopAfterTwo(loop), m, t[2..])
            && StripFrom(loop, t) == "  " + StripFrom(LoopAfterTwo(loop), t[2..])
            && Scan(s, t) == "  " + Scan(m, t[2..])
            && StateAfter(s, t) == StateAfter(m, t[2..])
  {}

  lemma OneAtOnce(loop: Loop, s: State, t: string)
    requires t != [] && Corresponds(loop, s, t) && !TakesTwo(loop, t) && !(loop == Block && |t| == 1)
    ensures var n, r := Next(s, t[0], t[1..]), Render(s, t[0], t[1..]);
            && Corresponds(LoopAfterOne(loop, t), n, t[1..])
            && StripFrom(loop, t) == [r] + StripFrom(LoopAfterOne(loop, t), t[1..])
            && Scan(s, t) == [r] + Scan(n, t[1..])
            && StateAfter(s, t) == StateAfter(n, t[1..])
  {}

  lemma {:induction false} LoopsAgree(loop: Loop, s: State, t: string)
    requires Corresponds(loop, s, t)
    ensures Agrees(StripFrom(loop, t), Scan(s, t), StateAfter(s, t))
    decreases |t|
  {
    if t == [] {
    } else if TakesTwo(loop, t) {
      TwoAtOnce(loop, s, t);
      var m := Next(Next(s, t[0], t[1..]), t[1], t[2..]);
      LoopsAgree(LoopAfterTwo(loop), m, t[2..]);
      AgreesPrefix("  ", StripFrom(LoopAfterTwo(loop), t[2..]), Scan(m, t[2..]), StateAfter(m, t[2..]));
    } else if loop == Block && |t| == 1 {
      OneStep(s, t);
    } else {
      OneAtOnce(loop, s, t);
      var n := Next(s, t[0], t[1..]);
      LoopsAgree(LoopAfterOne(loop, t), n, t[1..]);
      AgreesPrefix([Render(s, t[0], t[1..])], StripFrom(LoopAfterOne(loop, t), t[1..]), Scan(n, t[1..]),
              StateAfter(n, t[1..]));
    }
  }

  /** Stripping renders the text character by character; only a block comment left open
      makes a difference, at the very end. */
  lemma StripIsScan(t: string)
    ensures Agrees(Strip(t), Scan(InCode, t), StateAfter(InCode, t))
    ensures !CommentLeftOpen(t) ==> Strip(t) == Scan(InCode, t)
  {
    LoopsAgree(Code, InCode, t);
  }

  // ----- what is kept

  /** The automaton's state just before character `i`. */
  function StateAt(s: State, t: string, i: nat): State
    requires i <= |t|
    decreases i
  {
    if i == 0 then s else StateAt(Next(s, t[0], t[1..]), t[1..], i - 1)
  }

  predicate CodeAt(t: string, i: nat)
    requires i < |t|
  {
    IsCode(StateAt(InCode, t, i), t[i], t[i + 1..])
  }

  lemma {:induction false} ScanAt(s: State, t: string, i: nat)
    requires i < |t|
    ensures Scan(s, t)[i] == Render(StateAt(s, t, i), t[i], t[i + 1..])
    decreases i
  {
    if i > 0 {
      ScanAt(Next(s, t[0], t[1..]), t[1..], i - 1);
      assert t[1..][i..] == t[i + 1..];
    }
  }

  lemma {:induction false} StateAtEnd(s: State, t: string)
    requires t != []
    ensures StateAfter(s, t) == Next(StateAt(s, t, |t| - 1), t[|t| - 1], [])
    decreases |t|
  {
    if |t| > 1 {
      StateAtEnd(Next(s, t[0], t[1..]), t[1..]);
    } else {
      assert t[1..] == [];
    }
  }

  /** The length is kept exactly when every block comment is closed; otherwise one
      character is added, or two if the comment is empty. */
  lemma LengthExact(t: string)
    ensures |Strip(t)| == |t| <==> !CommentLeftOpen(t)
    ensures |Strip(t)|
         == |t| + if StateAfter(InCode, t) == InBlock(false) then 2 else if CommentLeftOpen(t) then 1 else 0
  {
    StripIsScan(t);
  }

  /** Every code character keeps its place, and every other one becomes a space or a
      line break, in every text. */
  lemma CodeKeepsItsPlace(t: string, i: nat)
    requires i < |t|
    ensures i < |Strip(t)|
    ensures CodeAt(t, i) ==> Strip(t)[i] == t[i]
    ensures !CodeAt(t, i) ==> Strip(t)[i] == ' ' || Strip(t)[i] == '\n'
  {
    StripIsScan(t);
    ScanAt(InCode, t, i);
    if i == |t| - 1 {
      StateAtEnd(InCode, t);
      assert t[i + 1..] == [];
    }
  }
}
