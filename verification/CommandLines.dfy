/** What splitting a command line means, apart from the scanner: two descriptions on the text. */
module CommandLines {
  import S = Sequences
  import opened SplitCommands

  // ---------------------------------------------------------------------------------------
  // On every text: runs of quotes
  // ---------------------------------------------------------------------------------------

  /** A character of the result; a literal one never separates arguments. */
  datatype Mark = Mark(c: char, literal: bool)

  /** The length of the run of quotes that the text starts with. */
  function Run(text: string): (n: nat)
    ensures n <= |text| && (forall i :: 0 <= i < n ==> text[i] == '"') && (n < |text| ==> text[n] != '"')
  {
    if text == "" || text[0] != '"' then 0 else 1 + Run(text[1..])
  }

  function Quotes(n: nat): string {
    seq(n, _ => '"')
  }

  /** A run of n quotes stands for n / 3 quote characters, and opens or closes a quotation when one
      is left over. Characters inside a quotation are literal. */
  function Marked(text: string, inQuote: bool): seq<Mark>
    decreases |text|
  {
    if text == "" then []
    else if text[0] == '"' then
      var n := Run(text);
      seq(n / 3, _ => Mark('"', true)) + Marked(text[n..], if n % 3 == 1 then !inQuote else inQuote)
    else [Mark(text[0], inQuote)] + Marked(text[1..], inQuote)
  }

  /** The non-empty stretches between separators; `tmp` is the one begun. */
  function Fields(isSpace: char -> bool, marks: seq<Mark>, tmp: string): seq<string> {
    if marks == [] then NonEmpty([tmp])
    else if !marks[0].literal && isSpace(marks[0].c) then NonEmpty([tmp]) + Fields(isSpace, marks[1..], "")
    else Fields(isSpace, marks[1..], tmp + [marks[0].c])
  }

  lemma {:induction false} FeedRun(isSpace: char -> bool, s: Scanner, n: nat)
    requires s.quoteCount == 0
    ensures FeedAll(isSpace, s, Quotes(n)) == Scanner(s.args, s.tmp + Quotes(n / 3), n % 3, s.inQuote)
  {
    if n == 0 {
      assert s.tmp + Quotes(0) == s.tmp;
    } else {
      FeedRun(isSpace, s, n - 1);
      assert Quotes(n) == Quotes(n - 1) + ['"'];
      FeedConcat(isSpace, s, Quotes(n - 1), ['"']);
      FeedOne(isSpace, FeedAll(isSpace, s, Quotes(n - 1)), '"');
      assert n % 3 == 0 ==> Quotes(n / 3) == Quotes((n - 1) / 3) + ['"'];
    }
  }

  lemma {:induction false} FieldsOfQuotes(isSpace: char -> bool, n: nat, marks: seq<Mark>, tmp: string)
    ensures Fields(isSpace, seq(n, _ => Mark('"', true)) + marks, tmp) == Fields(isSpace, marks, tmp + Quotes(n))
    decreases n
  {
    var all := seq(n, _ => Mark('"', true)) + marks;
    if n == 0 {
      assert all == marks && tmp + Quotes(0) == tmp;
    } else {
      assert all[1..] == seq(n - 1, _ => Mark('"', true)) + marks;
      FieldsOfQuotes(isSpace, n - 1, marks, tmp + ['"']);
      assert tmp + ['"'] + Quotes(n - 1) == tmp + Quotes(n);
    }
  }

  /** Pending quotes take effect at the next character, so one may as well settle them before. */
  lemma SettlePending(isSpace: char -> bool, s: Scanner, rest: string)
    requires rest == "" || rest[0] != '"'
    ensures var settled := Scanner(s.args, s.tmp, 0, if s.quoteCount == 1 then !s.inQuote else s.inQuote);
      Finish(FeedAll(isSpace, s, rest)) == Finish(FeedAll(isSpace, settled, rest))
  {
  }

  lemma {:induction false} ScannerReadsMarks(isSpace: char -> bool, s: Scanner, text: string)
    requires s.quoteCount == 0
    ensures Finish(FeedAll(isSpace, s, text)) == s.args + Fields(isSpace, Marked(text, s.inQuote), s.tmp)
    decreases |text|
  {
    if text == "" {
      assert NonEmpty([s.tmp]) == if s.tmp == "" then [] else [s.tmp];
    } else if text[0] == '"' {
      ReadsRun(isSpace, s, text, Run(text));
    } else {
      ReadsOne(isSpace, s, text);
    }
  }

  lemma {:induction false} ReadsRun(isSpace: char -> bool, s: Scanner, text: string, n: nat)
    requires s.quoteCount == 0 && text != "" && text[0] == '"' && n == Run(text)
    ensures Finish(FeedAll(isSpace, s, text)) == s.args + Fields(isSpace, Marked(text, s.inQuote), s.tmp)
    decreases |text|, 0
  {
    var rest := text[n..];
    var s' := FeedAll(isSpace, s, Quotes(n));
    assert text == Quotes(n) + rest;
    FeedConcat(isSpace, s, Quotes(n), rest);
    FeedRun(isSpace, s, n);
    SettlePending(isSpace, s', rest);
    var inQuote := if n % 3 == 1 then !s.inQuote else s.inQuote;
    ScannerReadsMarks(isSpace, Scanner(s.args, s.tmp + Quotes(n / 3), 0, inQuote), rest);
    FieldsOfQuotes(isSpace, n / 3, Marked(rest, inQuote), s.tmp);
  }

  lemma {:induction false} ReadsOne(isSpace: char -> bool, s: Scanner, text: string)
    requires s.quoteCount == 0 && text != "" && text[0] != '"'
    ensures Finish(FeedAll(isSpace, s, text)) == s.args + Fields(isSpace, Marked(text, s.inQuote), s.tmp)
    decreases |text|, 0
  {
    var marks := Marked(text[1..], s.inQuote);
    var s' := Feed(isSpace, s, text[0]);
    ScannerReadsMarks(isSpace, s', text[1..]);
    var all := Marked(text, s.inQuote);
    assert all[0] == Mark(text[0], s.inQuote) && all[1..] == marks;
    if !s.inQuote && isSpace(text[0]) {
      assert s'.args == s.args + NonEmpty([s.tmp]);
      S.ConcatAssociates(s.args, NonEmpty([s.tmp]), Fields(isSpace, marks, ""));
    } else {
      assert s' == Scanner(s.args, s.tmp + [text[0]], 0, s.inQuote);
    }
  }

  /** On every text, splitting gives the stretches between the separators left after reading the
      runs of quotes. */
  lemma SplitReadsMarks(isSpace: char -> bool, text: string)
    ensures SplitCommands.Split(isSpace, text) == Fields(isSpace, Marked(text, false), "")
  {
    ScannerReadsMarks(isSpace, START, text);
  }

  // ---------------------------------------------------------------------------------------
  // On written command lines: words of bare and quoted pieces
  // ---------------------------------------------------------------------------------------

  datatype Piece = Bare(text: string) | InQuotes(text: string)

  predicate PieceOk(isSpace: char -> bool, p: Piece) {
    p.Bare? ==> p.text != "" && forall c :: c in p.text ==> c != '"' && !isSpace(c)
  }

  function PieceText(p: Piece): string {
    if p.Bare? then p.text else Quoted(p.text)
  }

  /** Two quoted pieces in a row would run their quotes together. */
  predicate WordOk(isSpace: char -> bool, w: seq<Piece>) {
    && w != []
    && (forall i :: 0 <= i < |w| ==> PieceOk(isSpace, w[i]))
    && (forall i :: 0 < i < |w| ==> w[i - 1].Bare? || w[i].Bare?)
  }

  function WordText(w: seq<Piece>): string {
    if w == [] then "" else WordText(w[..|w| - 1]) + PieceText(w[|w| - 1])
  }

  /** The argument that a word stands for. */
  function Meaning(w: seq<Piece>): string {
    if w == [] then "" else Meaning(w[..|w| - 1]) + w[|w| - 1].text
  }

  function Meanings(words: seq<seq<Piece>>): seq<string> {
    seq(|words|, i requires 0 <= i < |words| => Meaning(words[i]))
  }

  predicate GapOk(isSpace: char -> bool, gap: string) {
    forall c :: c in gap ==> c != '"' && isSpace(c)
  }

  /** A gap in front of every word and one at the end; only those two may be empty. */
  predicate LineOk(isSpace: char -> bool, words: seq<seq<Piece>>, gaps: seq<string>) {
    && |gaps| == |words| + 1
    && (forall i :: 0 <= i < |words| ==> WordOk(isSpace, words[i]))
    && (forall i :: 0 <= i < |gaps| ==> GapOk(isSpace, gaps[i]))
    && (forall i :: 0 < i < |words| ==> gaps[i] != "")
  }

  function LineText(words: seq<seq<Piece>>, gaps: seq<string>): string
    requires |gaps| == |words| + 1
    decreases |words|
  {
    var n := |words|;
    if n == 0 then gaps[0] else LineText(words[..n - 1], gaps[..n]) + WordText(words[n - 1]) + gaps[n]
  }

  lemma {:induction false} FeedBare(isSpace: char -> bool, s: Scanner, text: string)
    requires Closed(s) && text != "" && forall c :: c in text ==> c != '"' && !isSpace(c)
    ensures FeedAll(isSpace, s, text) == Scanner(s.args, s.tmp + text, 0, false)
    decreases |text|
  {
    var s' := Feed(isSpace, s, text[0]);
    assert s' == Scanner(s.args, s.tmp + [text[0]], 0, false);
    assert s.tmp + [text[0]] + text[1..] == s.tmp + text;
    if |text| > 1 {
      assert forall c :: c in text[1..] ==> c in text;
      FeedBare(isSpace, s', text[1..]);
    }
  }

  lemma {:induction false} FeedGap(isSpace: char -> bool, s: Scanner, gap: string)
    requires Closed(s) && GapOk(isSpace, gap) && gap != ""
    ensures FeedAll(isSpace, s, gap) == Scanner(s.args + NonEmpty([s.tmp]), "", 0, false)
    decreases |gap|
  {
    var s' := Feed(isSpace, s, gap[0]);
    assert s' == Scanner(s.args + NonEmpty([s.tmp]), "", 0, false);
    if |gap| > 1 {
      assert forall c :: c in gap[1..] ==> c in gap;
      FeedGap(isSpace, s', gap[1..]);
      assert s'.args + [] == s'.args;
    }
  }

  lemma {:induction false} FeedWord(isSpace: char -> bool, args: seq<string>, w: seq<Piece>)
    requires w != [] ==> WordOk(isSpace, w)
    ensures var s := FeedAll(isSpace, Scanner(args, "", 0, false), WordText(w));
      && s.args == args && s.tmp == Meaning(w) && Closed(s)
      && (w == [] || w[|w| - 1].Bare? ==> s.quoteCount == 0)
  {
    if w != [] {
      var last := |w| - 1;
      var s0 := Scanner(args, "", 0, false);
      var s := FeedAll(isSpace, s0, WordText(w[..last]));
      FeedWord(isSpace, args, w[..last]);
      FeedConcat(isSpace, s0, WordText(w[..last]), PieceText(w[last]));
      if w[last].Bare? {
        FeedBare(isSpace, s, w[last].text);
      } else {
        assert s == Scanner(args, s.tmp, 0, false);
        FeedQuoted(isSpace, args, s.tmp, w[last].text);
      }
    }
  }

  lemma {:induction false} NonEmptyConcat(a: seq<string>, b: seq<string>)
    ensures NonEmpty(a + b) == NonEmpty(a) + NonEmpty(b)
  {
    if a == [] {
      assert a + b == b;
    } else {
      assert (a + b)[1..] == a[1..] + b;
      NonEmptyConcat(a[1..], b);
    }
  }

  /** Behind a gap everything so far is split; otherwise the last word is still being read. */
  lemma {:induction false} FeedLine(isSpace: char -> bool, words: seq<seq<Piece>>, gaps: seq<string>)
    requires LineOk(isSpace, words, gaps)
    ensures var s := FeedAll(isSpace, START, LineText(words, gaps)); var n := |words|;
      if n == 0 || gaps[n] != "" then s == Scanner(NonEmpty(Meanings(words)), "", 0, false)
      else s.args == NonEmpty(Meanings(words[..n - 1])) && s.tmp == Meaning(words[n - 1])
    decreases |words|
  {
    var n := |words|;
    if n == 0 {
      if gaps[0] != "" { FeedGap(isSpace, START, gaps[0]); }
    } else {
      var before := LineText(words[..n - 1], gaps[..n]);
      var s := FeedAll(isSpace, START, before);
      FeedLine(isSpace, words[..n - 1], gaps[..n]);
      assert s == Scanner(NonEmpty(Meanings(words[..n - 1])), "", 0, false);
      FeedConcat(isSpace, START, before, WordText(words[n - 1]));
      FeedWord(isSpace, s.args, words[n - 1]);
      FeedConcat(isSpace, START, before + WordText(words[n - 1]), gaps[n]);
      if gaps[n] != "" {
        FeedGap(isSpace, FeedAll(isSpace, s, WordText(words[n - 1])), gaps[n]);
        OneMoreWord(words);
      }
    }
  }

  lemma OneMoreWord(words: seq<seq<Piece>>)
    requires words != []
    ensures NonEmpty(Meanings(words))
         == NonEmpty(Meanings(words[..|words| - 1])) + NonEmpty([Meaning(words[|words| - 1])])
  {
    assert Meanings(words) == Meanings(words[..|words| - 1]) + [Meaning(words[|words| - 1])];
    NonEmptyConcat(Meanings(words[..|words| - 1]), [Meaning(words[|words| - 1])]);
  }

  /** Every command line of words, each written bare, quoted, or glued from bare and quoted pieces,
      with any spaces between and around them, splits into the arguments the words stand for; those
      that are empty vanish. */
  lemma SplitReadsWords(isSpace: char -> bool, words: seq<seq<Piece>>, gaps: seq<string>)
    requires LineOk(isSpace, words, gaps)
    ensures SplitCommands.Split(isSpace, LineText(words, gaps)) == NonEmpty(Meanings(words))
  {
    FeedLine(isSpace, words, gaps);
    if words != [] { OneMoreWord(words); }
  }
}
