/** Splitting a command line into arguments, respecting single and double quotes. */
module ArgTokenizer {
  import opened Sequences
  import opened Wrappers

  predicate IsQuote(c: char) {
    c == '"' || c == '\''
  }

  predicate IsBlank(c: char) {
    c == ' ' || c == '\t'
  }

  /** The tokenizer as a three-state automaton: outside quotes, inside '"', inside '\''.
      `current` is the token being built. */
  function Scan(s: string, quote: Option<char>, current: string): seq<string> {
    if s == "" then
      if current != "" then [current] else []
    else
      var c, rest := s[0], s[1..];
      if quote.Some? then
        if c == quote.value then Scan(rest, None, current) else Scan(rest, quote, current + [c])
      else if IsQuote(c) then Scan(rest, Some(c), current)
      else if IsBlank(c) then
        if current != "" then [current] + Scan(rest, None, "") else Scan(rest, None, "")
      else Scan(rest, None, current + [c])
  }

  function Tokens(args: string): seq<string> {
    Scan(args, None, "")
  }

  method TokenizeArgs(args: string) returns (result: seq<string>)
    ensures result == Tokens(args)
  {
    result := [];
    var current := "";
    var quote: Option<char> := None;
    var i := 0;
    while i < |args|
      invariant 0 <= i <= |args|
      invariant result + Scan(args[i..], quote, current) == Tokens(args)
    {
      var c := args[i];
      assert args[i..][1..] == args[i + 1..];
      if quote.Some? {
        if c == quote.value {
          quote := None;
        } else {
          current := current + [c];
        }
      } else if IsQuote(c) {
        quote := Some(c);
      } else if IsBlank(c) {
        if current != "" {
          ghost var before := result;
          result := result + [current];
          assert before + ([current] + Scan(args[i + 1..], None, "")) == result + Scan(args[i + 1..], None, "");
          current := "";
        }
      } else {
        current := current + [c];
      }
      i := i + 1;
    }
    if current != "" {
      result := result + [current];
    }
  }

  // ----- on every input -----

  lemma {:induction false} NoEmptyTokens(s: string, quote: Option<char>, current: string)
    ensures "" !in Scan(s, quote, current)
    decreases |s|
  {
    if s == "" {
    } else {
      var c, rest := s[0], s[1..];
      NoEmptyTokens(rest, None, current);
      NoEmptyTokens(rest, quote, current + [c]);
      NoEmptyTokens(rest, Some(c), current);
      NoEmptyTokens(rest, None, "");
    }
  }

  function Flatten(ts: seq<string>): string {
    if ts == [] then "" else ts[0] + Flatten(ts[1..])
  }

  /** The characters that are neither a quote opening or closing a quotation nor a blank outside one. */
  function Kept(s: string, quote: Option<char>): string {
    if s == "" then ""
    else
      var c, rest := s[0], s[1..];
      if quote.Some? then
        if c == quote.value then Kept(rest, None) else [c] + Kept(rest, quote)
      else if IsQuote(c) then Kept(rest, Some(c))
      else if IsBlank(c) then Kept(rest, None)
      else [c] + Kept(rest, None)
  }

  lemma {:induction false} ScanKeeps(s: string, quote: Option<char>, current: string)
    ensures Flatten(Scan(s, quote, current)) == current + Kept(s, quote)
    decreases |s|
  {
    if s == "" {
      if current != "" {
        assert Flatten([current]) == current + Flatten([]);
      }
    } else {
      var c, rest := s[0], s[1..];
      if quote.Some? {
        if c == quote.value {
          ScanKeeps(rest, None, current);
        } else {
          ScanKeeps(rest, quote, current + [c]);
        }
      } else if IsQuote(c) {
        ScanKeeps(rest, Some(c), current);
      } else if IsBlank(c) {
        ScanKeeps(rest, None, "");
      } else {
        ScanKeeps(rest, None, current + [c]);
      }
    }
  }

  /** On any input no token is empty, and nothing is lost but quote delimiters and unquoted blanks:
      the tokens, put together, are exactly the other characters in order. */
  lemma TokensKeepTheText(args: string)
    ensures "" !in Tokens(args)
    ensures Flatten(Tokens(args)) == Kept(args, None)
  {
    NoEmptyTokens(args, None, "");
    ScanKeeps(args, None, "");
  }

  // ----- every way of writing an argument list -----

  /** A bare character, or a quotation that does not contain its own quote. */
  datatype Piece = Bare(c: char) | Quoted(q: char, body: string)

  predicate ValidPiece(p: Piece) {
    match p
    case Bare(c) => c != ' ' && c != '\t' && c != '"' && c != '\''
    case Quoted(q, body) => (q == '"' || q == '\'') && q !in body
  }

  function PieceText(p: Piece): string {
    match p
    case Bare(c) => [c]
    case Quoted(q, body) => [q] + body + [q]
  }

  function PieceValue(p: Piece): string {
    match p
    case Bare(c) => [c]
    case Quoted(_, body) => body
  }

  /** One argument: adjoining pieces, followed by the blanks that end it. */
  datatype Word = Word(pieces: seq<Piece>, gap: string)

  function Text(ps: seq<Piece>): string {
    if ps == [] then "" else PieceText(ps[0]) + Text(ps[1..])
  }

  function Value(ps: seq<Piece>): string {
    if ps == [] then "" else PieceValue(ps[0]) + Value(ps[1..])
  }

  /** Only the last word may end without a blank. */
  predicate ValidLine(ws: seq<Word>) {
    && (forall w :: w in ws ==> forall p :: p in w.pieces ==> ValidPiece(p))
    && (forall w :: w in ws ==> forall c :: c in w.gap ==> c == ' ' || c == '\t')
    && forall i :: 0 <= i < |ws| - 1 ==> ws[i].gap != ""
  }

  function LineText(ws: seq<Word>): string {
    if ws == [] then "" else Text(ws[0].pieces) + ws[0].gap + LineText(ws[1..])
  }

  function NonEmptyValues(ws: seq<Word>): seq<string> {
    if ws == [] then []
    else (if Value(ws[0].pieces) != "" then [Value(ws[0].pieces)] else []) + NonEmptyValues(ws[1..])
  }

  lemma {:induction false} ScanQuotation(body: string, q: char, rest: string, current: string)
    requires q !in body
    ensures Scan(body + [q] + rest, Some(q), current) == Scan(rest, None, current + body)
    decreases |body|
  {
    var s := body + [q] + rest;
    if body == "" {
      assert s[1..] == rest && current + body == current;
    } else {
      assert s[0] == body[0] && s[1..] == body[1..] + [q] + rest;
      ScanQuotation(body[1..], q, rest, current + [body[0]]);
      assert current + [body[0]] + body[1..] == current + body;
    }
  }

  lemma ScanPiece(p: Piece, rest: string, current: string)
    requires ValidPiece(p)
    ensures Scan(PieceText(p) + rest, None, current) == Scan(rest, None, current + PieceValue(p))
  {
    var s := PieceText(p) + rest;
    match p
    case Bare(c) =>
      assert s[0] == c && s[1..] == rest;
    case Quoted(q, body) =>
      assert s[0] == q && s[1..] == body + [q] + rest;
      ScanQuotation(body, q, rest, current);
  }

  lemma {:induction false} ScanWord(ps: seq<Piece>, rest: string, current: string)
    requires forall p :: p in ps ==> ValidPiece(p)
    ensures Scan(Text(ps) + rest, None, current) == Scan(rest, None, current + Value(ps))
    decreases |ps|
  {
    if ps == [] {
      assert "" + rest == rest && current + "" == current;
    } else {
      var text, value := PieceText(ps[0]), PieceValue(ps[0]);
      Associate(text, Text(ps[1..]), rest);
      ScanPiece(ps[0], Text(ps[1..]) + rest, current);
      ScanWord(ps[1..], rest, current + value);
      Associate(current, value, Value(ps[1..]));
    }
  }

  lemma {:induction false} ScanBlanks(gap: string, rest: string)
    requires forall c :: c in gap ==> IsBlank(c)
    ensures Scan(gap + rest, None, "") == Scan(rest, None, "")
  {
    if gap == "" {
      assert gap + rest == rest;
    } else {
      assert (gap + rest)[0] == gap[0] && (gap + rest)[1..] == gap[1..] + rest;
      ScanBlanks(gap[1..], rest);
    }
  }

  /** A gap ends the token under construction. */
  lemma ScanGap(value: string, gap: string, rest: string)
    requires gap != "" && forall c :: c in gap ==> IsBlank(c)
    ensures Scan(gap + rest, None, value) == (if value != "" then [value] else []) + Scan(rest, None, "")
  {
    assert gap[0] in gap;
    assert (gap + rest)[0] == gap[0] && (gap + rest)[1..] == gap[1..] + rest;
    ScanBlanks(gap[1..], rest);
  }

  /** However a list of arguments is written (bare or quoted, with either quote, in pieces, with any blanks in
      between), the tokens are exactly the arguments that are not empty, in order. */
  lemma {:induction false} LineTokens(ws: seq<Word>)
    requires ValidLine(ws)
    ensures Tokens(LineText(ws)) == NonEmptyValues(ws)
  {
    if ws == [] {
    } else {
      var w, rest := ws[0], LineText(ws[1..]);
      Associate(Text(w.pieces), w.gap, rest);
      ScanWord(w.pieces, w.gap + rest, "");
      assert "" + Value(w.pieces) == Value(w.pieces);
      LineTokens(ws[1..]);
      if w.gap == "" {
        assert ws[1..] == [];
        assert w.gap + rest == "";
      } else {
        ScanGap(Value(w.pieces), w.gap, rest);
      }
    }
  }

  // ----- the quoting renderer -----

  /** Quotes each character with a quote other than itself. */
  function QuoteEach(arg: string): seq<Piece> {
    if arg == "" then []
    else [Quoted(if arg[0] == '"' then '\'' else '"', [arg[0]])] + QuoteEach(arg[1..])
  }

  function Words(args: seq<string>): seq<Word> {
    if args == [] then []
    else [Word(QuoteEach(args[0]), if |args| == 1 then "" else " ")] + Words(args[1..])
  }

  /** The arguments quoted and joined by single spaces. */
  function Render(args: seq<string>): string {
    LineText(Words(args))
  }

  lemma {:induction false} QuoteEachWrites(arg: string)
    ensures Value(QuoteEach(arg)) == arg
    ensures forall p :: p in QuoteEach(arg) ==> ValidPiece(p)
  {
    if arg == "" {
    } else {
      QuoteEachWrites(arg[1..]);
    }
  }

  function NonEmpty(args: seq<string>): seq<string> {
    if args == [] then [] else (if args[0] != "" then [args[0]] else []) + NonEmpty(args[1..])
  }

  lemma {:induction false} WordsWrite(args: seq<string>)
    ensures ValidLine(Words(args)) && |Words(args)| == |args| && NonEmptyValues(Words(args)) == NonEmpty(args)
  {
    if args == [] {
    } else {
      QuoteEachWrites(args[0]);
      WordsWrite(args[1..]);
      assert Words(args)[1..] == Words(args[1..]);
    }
  }

  lemma {:induction false} NonEmptyIsIdentityIff(args: seq<string>)
    ensures |NonEmpty(args)| <= |args| && (NonEmpty(args) == args <==> "" !in args)
  {
    if args == [] {
    } else {
      NonEmptyIsIdentityIff(args[1..]);
    }
  }

  /** Rendering and tokenizing gives back the argument list, over any characters, if and only if no argument is
      empty; empty arguments are lost and nothing else is. */
  lemma RoundTripIff(args: seq<string>)
    ensures Tokens(Render(args)) == NonEmpty(args)
    ensures Tokens(Render(args)) == args <==> "" !in args
  {
    WordsWrite(args);
    LineTokens(Words(args));
    NonEmptyIsIdentityIff(args);
  }
}
