/** src/util/SplitCommand.cpp: splitting a command line with double quotes. What counts as a
    space is a parameter; the plain space is one. */
module SplitCommands {
  datatype Scanner = Scanner(args: seq<string>, tmp: string, quoteCount: nat, inQuote: bool)

  const START := Scanner([], "", 0, false)

  /** One character of the command line. */
  function Feed(isSpace: char -> bool, s: Scanner, c: char): Scanner {
    if c == '"' then
      if s.quoteCount + 1 == 3 then s.(quoteCount := 0, tmp := s.tmp + [c])
      else s.(quoteCount := s.quoteCount + 1)
    else
      var inQuote := if s.quoteCount == 1 then !s.inQuote else s.inQuote;
      if !inQuote && isSpace(c) then
        Scanner(if s.tmp == "" then s.args else s.args + [s.tmp], "", 0, inQuote)
      else
        Scanner(s.args, s.tmp + [c], 0, inQuote)
  }

  function FeedAll(isSpace: char -> bool, s: Scanner, text: string): Scanner
    decreases |text|
  {
    if text == "" then s else FeedAll(isSpace, Feed(isSpace, s, text[0]), text[1..])
  }

  function Finish(s: Scanner): seq<string> {
    if s.tmp == "" then s.args else s.args + [s.tmp]
  }

  function Split(isSpace: char -> bool, text: string): seq<string> {
    Finish(FeedAll(isSpace, START, text))
  }

  lemma {:induction false} FeedConcat(isSpace: char -> bool, s: Scanner, a: string, b: string)
    ensures FeedAll(isSpace, s, a + b) == FeedAll(isSpace, FeedAll(isSpace, s, a), b)
    decreases |a|
  {
    if a == "" {
      assert a + b == b;
    } else {
      assert (a + b)[1..] == a[1..] + b;
      FeedConcat(isSpace, Feed(isSpace, s, a[0]), a[1..], b);
    }
  }

  lemma FeedOne(isSpace: char -> bool, s: Scanner, c: char)
    ensures FeedAll(isSpace, s, [c]) == Feed(isSpace, s, c)
  {
    assert [c][1..] == "";
  }

  method SplitCommand(command: string, isSpace: char -> bool) returns (args: seq<string>)
    ensures args == Split(isSpace, command)
  {
    args := [];
    var tmp, quoteCount, inQuote := "", 0, false;
    for i := 0 to |command|
      invariant quoteCount < 3
      invariant FeedAll(isSpace, START, command)
             == FeedAll(isSpace, Scanner(args, tmp, quoteCount, inQuote), command[i..])
    {
      if command[i] == '"' {
        quoteCount := quoteCount + 1;
        if quoteCount == 3 {
          quoteCount := 0;
          tmp := tmp + [command[i]];
        }
        continue;
      }
      if quoteCount != 0 {
        if quoteCount == 1 {
          inQuote := !inQuote;
        }
        quoteCount := 0;
      }
      if !inQuote && isSpace(command[i]) {
        if tmp != "" {
          args := args + [tmp];
          tmp := "";
        }
      } else {
        tmp := tmp + [command[i]];
      }
    }
    if tmp != "" {
      args := args + [tmp];
    }
  }

  // ---------------------------------------------------------------------------------------
  // Quoting
  // ---------------------------------------------------------------------------------------

  /** One character of the argument, as it appears between the quotes. */
  function Written(c: char): string {
    if c == '"' then "\"\"\"" else [c]
  }

  /** Every quote character becomes three. */
  function Tripled(arg: string): string {
    if arg == "" then ""
    else Written(arg[0]) + Tripled(arg[1..])
  }

  function Quoted(arg: string): string {
    "\"" + Tripled(arg) + "\""
  }

  function Joined(args: seq<string>): string {
    if args == [] then ""
    else if |args| == 1 then Quoted(args[0])
    else Quoted(args[0]) + " " + Joined(args[1..])
  }

  function NonEmpty(args: seq<string>): seq<string> {
    if args == [] then []
    else (if args[0] == "" then [] else [args[0]]) + NonEmpty(args[1..])
  }

  /** Inside a quoted argument: either only quote characters came so far and the opening quote is
      still pending, or the quote is open. */
  predicate Inside(s: Scanner) {
    (s.quoteCount == 1 && !s.inQuote) || (s.quoteCount == 0 && s.inQuote)
  }

  lemma FeedThreeQuotes(isSpace: char -> bool, s: Scanner)
    requires Inside(s)
    ensures FeedAll(isSpace, s, "\"\"\"") == s.(tmp := s.tmp + ['"'])
  {
    var s1 := Feed(isSpace, s, '"');
    var s2 := Feed(isSpace, s1, '"');
    FeedOne(isSpace, s, '"');
    FeedOne(isSpace, s1, '"');
    FeedOne(isSpace, s2, '"');
    FeedConcat(isSpace, s, ['"'], ['"', '"']);
    FeedConcat(isSpace, s1, ['"'], ['"']);
    assert ['"'] + ['"', '"'] == "\"\"\"" && ['"'] + ['"'] == ['"', '"'];
  }

  lemma FeedWritten(isSpace: char -> bool, s: Scanner, c: char)
    requires Inside(s)
    ensures var s' := FeedAll(isSpace, s, Written(c));
      Inside(s') && s'.args == s.args && s'.tmp == s.tmp + [c]
  {
    if c == '"' {
      FeedThreeQuotes(isSpace, s);
    } else {
      FeedOne(isSpace, s, c);
    }
  }

  lemma FirstAndRest(front: string, s: string)
    requires s != ""
    ensures front + [s[0]] + s[1..] == front + s
  {
  }

  lemma {:induction false} FeedTripled(isSpace: char -> bool, s: Scanner, arg: string)
    requires Inside(s)
    ensures var s' := FeedAll(isSpace, s, Tripled(arg));
      Inside(s') && s'.args == s.args && s'.tmp == s.tmp + arg
    decreases |arg|
  {
    if arg != "" {
      var s1 := FeedAll(isSpace, s, Written(arg[0]));
      FeedWritten(isSpace, s, arg[0]);
      FeedTripled(isSpace, s1, arg[1..]);
      FeedConcat(isSpace, s, Written(arg[0]), Tripled(arg[1..]));
      assert Tripled(arg) == Written(arg[0]) + Tripled(arg[1..]);
      FirstAndRest(s.tmp, arg);
    }
  }

  /** The quote is closed, or about to close at the next character that is no quote. */
  predicate Closed(s: Scanner) {
    || (s.quoteCount == 0 && !s.inQuote)
    || (s.quoteCount == 2 && !s.inQuote)
    || (s.quoteCount == 1 && s.inQuote)
  }

  /** A quoted piece read outside quotes is added to what came before it. */
  lemma FeedQuoted(isSpace: char -> bool, args: seq<string>, tmp: string, arg: string)
    ensures var s := FeedAll(isSpace, Scanner(args, tmp, 0, false), Quoted(arg));
      s.args == args && s.tmp == tmp + arg && Closed(s)
  {
    var s0 := Scanner(args, tmp, 0, false);
    FeedConcat(isSpace, s0, "\"" + Tripled(arg), "\"");
    FeedConcat(isSpace, s0, "\"", Tripled(arg));
    FeedOne(isSpace, s0, '"');
    FeedTripled(isSpace, Feed(isSpace, s0, '"'), arg);
    FeedOne(isSpace, FeedAll(isSpace, s0, "\"" + Tripled(arg)), '"');
  }

  lemma {:induction false} FeedJoined(isSpace: char -> bool, args: seq<string>, rest: seq<string>)
    requires isSpace(' ')
    ensures Finish(FeedAll(isSpace, Scanner(args, "", 0, false), Joined(rest))) == args + NonEmpty(rest)
    decreases |rest|
  {
    if rest != [] {
      FeedQuoted(isSpace, args, "", rest[0]);
      assert "" + rest[0] == rest[0];
      if |rest| > 1 {
        var s0 := Scanner(args, "", 0, false);
        var s1 := FeedAll(isSpace, s0, Quoted(rest[0]));
        FeedConcat(isSpace, s0, Quoted(rest[0]) + " ", Joined(rest[1..]));
        FeedConcat(isSpace, s0, Quoted(rest[0]), " ");
        FeedOne(isSpace, s1, ' ');
        var args' := args + if rest[0] == "" then [] else [rest[0]];
        assert Feed(isSpace, s1, ' ') == Scanner(args', "", 0, false);
        FeedJoined(isSpace, args', rest[1..]);
      }
    }
  }

  lemma {:induction false} NonEmptyIsAll(args: seq<string>)
    requires "" !in args
    ensures NonEmpty(args) == args
  {
    if args != [] {
      NonEmptyIsAll(args[1..]);
    }
  }

  /** Splitting undoes quoting: every list of arguments, each wrapped in quotes with its inner
      quotes tripled and joined by spaces, splits back into the arguments that are not empty;
      into the same list when none is. */
  lemma SplitUndoesQuoting(isSpace: char -> bool, args: seq<string>)
    requires isSpace(' ')
    ensures Split(isSpace, Joined(args)) == NonEmpty(args)
    ensures "" !in args ==> Split(isSpace, Joined(args)) == args
  {
    FeedJoined(isSpace, [], args);
    if "" !in args { NonEmptyIsAll(args); }
  }

  lemma {:induction false} ArgsStayNonEmpty(isSpace: char -> bool, s: Scanner, text: string)
    requires "" !in s.args
    ensures "" !in FeedAll(isSpace, s, text).args
    decreases |text|
  {
    if text != "" {
      ArgsStayNonEmpty(isSpace, Feed(isSpace, s, text[0]), text[1..]);
    }
  }

  /** No input yields an empty token. */
  lemma NoEmptyToken(isSpace: char -> bool, text: string)
    ensures "" !in Split(isSpace, text)
  {
    ArgsStayNonEmpty(isSpace, START, text);
  }
}

/** `parseTagString` of src/util/IrcHelpers.hpp: decoding IRCv3 message tag values. Strings are
    sequences of 16-bit code units. */
module TagStrings {
  newtype QChar = c: int | 0 <= c < 0x10000

  const LF: QChar := 10
  const CR: QChar := 13
  const SPACE: QChar := 32
  const COLON: QChar := 58
  const SEMICOLON: QChar := 59
  const BACKSLASH: QChar := 92
  const LETTER_N: QChar := 110
  const LETTER_R: QChar := 114
  const LETTER_S: QChar := 115

  /** The low byte, which is all that the decoder looks at. */
  function Cell(c: QChar): QChar {
    c % 256
  }

  /** What the table of the specification gives for the character after a backslash. */
  function Named(c: QChar): QChar {
    if c == LETTER_N then LF
    else if c == LETTER_R then CR
    else if c == LETTER_S then SPACE
    else if c == BACKSLASH then BACKSLASH
    else if c == COLON then SEMICOLON
    else c
  }

  predicate HasName(c: QChar) {
    c == LETTER_N || c == LETTER_R || c == LETTER_S || c == BACKSLASH || c == COLON
  }

  function Decoded(c: QChar): QChar {
    if HasName(Cell(c)) then Named(Cell(c)) else c
  }

  /** The one-pass decoding that the in-place editing amounts to. */
  function Unescape(s: seq<QChar>): seq<QChar> {
    if |s| < 2 then s
    else if s[0] == BACKSLASH then [Decoded(s[1])] + Unescape(s[2..])
    else [s[0]] + Unescape(s[1..])
  }

  /** Edits a copy in place; `length` shrinks with every escape. */
  method ParseTagString(input: seq<QChar>) returns (output: seq<QChar>)
    ensures output == Unescape(input)
  {
    output := input;
    var length := |output|;
    var i := 0;
    while i < length - 1
      invariant length == |output| && 0 <= i
      invariant i <= length
      invariant output[..i] + Unescape(output[i..]) == Unescape(input)
      decreases length - i
    {
      ghost var before := output;
      if output[i] == BACKSLASH {
        var c := output[i + 1];
        var cell := Cell(c);
        if cell == LETTER_N {
          output := output[..i] + [LF] + output[i + 2..];
        } else if cell == LETTER_R {
          output := output[..i] + [CR] + output[i + 2..];
        } else if cell == LETTER_S {
          output := output[..i] + [SPACE] + output[i + 2..];
        } else if cell == BACKSLASH {
          output := output[..i] + [BACKSLASH] + output[i + 2..];
        } else if cell == COLON {
          output := output[..i] + [SEMICOLON] + output[i + 2..];
        } else {
          output := output[..i] + output[i + 1..];
        }
        length := length - 1;
        assert output == before[..i] + [Decoded(c)] + before[i + 2..];
      }
      EditKeepsMeaning(before, i);
      i := i + 1;
    }
  }

  /** One edit at position i, which moves on to position i + 1. */
  lemma EditKeepsMeaning(s: seq<QChar>, i: nat)
    requires i + 1 < |s|
    ensures var s' := if s[i] == BACKSLASH then s[..i] + [Decoded(s[i + 1])] + s[i + 2..] else s;
      i < |s'| && s'[..i + 1] + Unescape(s'[i + 1..]) == s[..i] + Unescape(s[i..])
  {
    var front, rest := s[..i], s[i..];
    if s[i] == BACKSLASH {
      Reassociate(front, [Decoded(s[i + 1])], s[i + 2..], Unescape(s[i + 2..]));
      assert rest[2..] == s[i + 2..];
    } else {
      Reassociate(front, [s[i]], s[i + 1..], Unescape(s[i + 1..]));
      assert rest[1..] == s[i + 1..];
      assert s == front + [s[i]] + s[i + 1..];
    }
  }

  lemma Reassociate<X>(a: seq<X>, x: seq<X>, b: seq<X>, c: seq<X>)
    requires |x| == 1
    ensures var s := a + x + b; s[..|a| + 1] + c == a + (x + c) && s[|a| + 1..] == b
  {
    assert (a + x + b)[..|a| + 1] == a + x;
  }

  /** The escaping of section "Escaping values" of the IRCv3 Message Tags specification. */
  function Escape(s: seq<QChar>): seq<QChar> {
    if s == [] then []
    else
      (if s[0] == SEMICOLON then [BACKSLASH, COLON]
       else if s[0] == SPACE then [BACKSLASH, LETTER_S]
       else if s[0] == BACKSLASH then [BACKSLASH, BACKSLASH]
       else if s[0] == CR then [BACKSLASH, LETTER_R]
       else if s[0] == LF then [BACKSLASH, LETTER_N]
       else [s[0]]) + Escape(s[1..])
  }

  /** Decoding undoes escaping, for every string. */
  lemma {:induction false} UnescapeUndoesEscape(s: seq<QChar>)
    ensures Unescape(Escape(s)) == s
  {
    if s != [] {
      UnescapeUndoesEscape(s[1..]);
      var rest := Escape(s[1..]);
      if s[0] in {SEMICOLON, SPACE, BACKSLASH, CR, LF} {
        assert Escape(s)[2..] == rest;
      } else {
        assert Escape(s)[1..] == rest;
      }
      assert [s[0]] + s[1..] == s;
    }
  }

  /** The decoding that the specification asks for: a named character stands for itself only, and
      a lone backslash at the end is dropped. */
  function StandardUnescape(s: seq<QChar>): seq<QChar> {
    if s == [] || s == [BACKSLASH] then []
    else if s[0] == BACKSLASH then [Named(s[1])] + StandardUnescape(s[2..])
    else [s[0]] + StandardUnescape(s[1..])
  }

  /** No lone backslash at the end, and no backslash in front of a character above 255 whose low
      byte happens to be the code of a named character. */
  predicate Ordinary(s: seq<QChar>) {
    if s == [] then true
    else if s[0] != BACKSLASH then Ordinary(s[1..])
    else |s| > 1 && (s[1] < 256 || !HasName(Cell(s[1]))) && Ordinary(s[2..])
  }

  /** The decoder follows the specification exactly on the ordinary strings. */
  lemma {:induction false} StandardExactlyWhenOrdinary(s: seq<QChar>)
    ensures Unescape(s) == StandardUnescape(s) <==> Ordinary(s)
  {
    if |s| >= 2 {
      if s[0] == BACKSLASH {
        StandardExactlyWhenOrdinary(s[2..]);
        assert s[1] < 256 ==> Cell(s[1]) == s[1];
        assert Decoded(s[1]) == Named(s[1]) <==> (s[1] < 256 || !HasName(Cell(s[1])));
        HeadAndTail(Decoded(s[1]), Unescape(s[2..]), Named(s[1]), StandardUnescape(s[2..]));
      } else {
        StandardExactlyWhenOrdinary(s[1..]);
        HeadAndTail(s[0], Unescape(s[1..]), s[0], StandardUnescape(s[1..]));
      }
    } else if |s| == 1 {
      assert s[1..] == [];
    }
  }

  lemma HeadAndTail(a: QChar, s: seq<QChar>, b: QChar, t: seq<QChar>)
    ensures [a] + s == [b] + t <==> a == b && s == t
  {
    if [a] + s == [b] + t {
      assert ([a] + s)[0] == a && ([b] + t)[0] == b;
      assert ([a] + s)[1..] == s && ([b] + t)[1..] == t;
    }
  }

  /** The escapes of the specification, in code units: n, r, s, backslash and colon stand for line
      feed, carriage return, space, backslash and semicolon; a backslash before anything else goes. */
  lemma EscapesDecode(c: QChar)
    ensures Unescape([92, 110]) == [10] && Unescape([92, 114]) == [13] && Unescape([92, 115]) == [32]
    ensures Unescape([92, 92]) == [92] && Unescape([92, 58]) == [59]
    ensures c % 256 !in {110, 114, 115, 92, 58} ==> Unescape([92, c]) == [c]
    ensures c != 92 ==> Unescape([c, 92]) == [c, 92] && Unescape([c]) == [c]
  {
    assert [92, c][2..] == [] && [c, 92][1..] == [92];
  }

  /** The two ways in which the decoder departs from the specification, at their smallest: a lone
      backslash is kept, and one in front of U+016E, whose low byte is that of 'n', becomes a line
      feed. */
  lemma DeparturesFromStandard()
    ensures Unescape([BACKSLASH]) == [BACKSLASH] && StandardUnescape([BACKSLASH]) == []
    ensures Unescape([BACKSLASH, 0x16E]) == [LF] && StandardUnescape([BACKSLASH, 0x16E]) == [0x16E]
  {
  }
}
