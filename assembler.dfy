/**
 * The assembler script (assembler.py, function `main`) without its command
 * line and file handles: a list of text lines, as `readlines()` returns
 * them, becomes the bytes of a `.ch8` image. Lines whose first character is
 * `#` are dropped, the rest are joined and split on whitespace, every token
 * is read as a hexadecimal integer, and every value is written as two bytes,
 * high byte first.
 */
module Assembler {
  import opened Options
  import opened TextSplit
  import opened HexInt
  import opened BigEndian

  /** What a run leaves behind. */
  datatype Outcome =
    | /** The output file holds exactly `image`. */
      Written(image: seq<byte>)
    | /** `int(token, 16)` raised `ValueError`; the output file was never opened. */
      InvalidToken(token: string)
    | /** `to_bytes` raised `OverflowError` on `value`; the output file holds the `image` written before it. */
      ValueOutOfRange(value: int, image: seq<byte>)

  /** A comment is a line whose very first character is `#`; an indented `#` does not count. */
  predicate IsComment(line: string) {
    |line| > 0 && line[0] == '#'
  }

  /** The lines the comment filter keeps, in their order. */
  function KeptLines(lines: seq<string>): (kept: seq<string>)
    ensures |kept| <= |lines|
    decreases |lines|
  {
    if lines == [] then []
    else
      var init := lines[..|lines| - 1];
      var last := lines[|lines| - 1];
      assert lines == init + [last];
      if IsComment(last) then KeptLines(init) else KeptLines(init) + [last]
  }

  /** A line is kept exactly when it is one of the input lines and not a comment. */
  lemma {:induction false} KeptLinesMembers(lines: seq<string>)
    ensures forall l :: l in KeptLines(lines) <==> l in lines && !IsComment(l)
    decreases |lines|
  {
    if lines != [] {
      var init := lines[..|lines| - 1];
      KeptLinesMembers(init);
      assert lines == init + [lines[|lines| - 1]];
    }
  }

  /** The text the comment filter accumulates: the kept lines, verbatim and in order. */
  function Program(lines: seq<string>): string {
    Concat(KeptLines(lines))
  }

  /** The whitespace-separated tokens of the program text. */
  function TokensOf(lines: seq<string>): seq<string> {
    Split(Program(lines))
  }

  /** The comment filter: appends every line that does not start with `#`. */
  method StripComments(lines: seq<string>) returns (program: string)
    ensures program == Program(lines)
  {
    program := "";
    for i := 0 to |lines|
      invariant program == Program(lines[..i])
    {
      var line := lines[i];
      assert lines[..i + 1] == lines[..i] + [line];
      if IsComment(line) {
        continue;
      }
      ConcatAppend(KeptLines(lines[..i]), [line]);
      program := program + line;
    }
    assert lines[..|lines|] == lines;
  }

  /** Token `i` is the first that `int(_, 16)` rejects. */
  predicate FirstInvalid(tokens: seq<string>, i: int) {
    && 0 <= i < |tokens|
    && ParseHex(tokens[i]).None?
    && forall j :: 0 <= j < i ==> ParseHex(tokens[j]).Some?
  }

  /**
   * The list comprehension `[int(x, 16) for x in tokens]`: every value in
   * order, or the first token that `int` rejects.
   */
  function ParseTokens(tokens: seq<string>): (r: Result<seq<int>, string>)
    ensures r.Ok? ==> |r.value| == |tokens|
    ensures r.Ok? ==> forall i :: 0 <= i < |tokens| ==> ParseHex(tokens[i]) == Some(r.value[i])
    ensures r.Err? ==> exists i :: FirstInvalid(tokens, i) && tokens[i] == r.error
  {
    if tokens == [] then Ok([])
    else
      match ParseHex(tokens[0])
      case None => Err(tokens[0])
      case Some(v) =>
        var rest := ParseTokens(tokens[1..]);
        match rest
        case Err(t) =>
          var i :| FirstInvalid(tokens[1..], i) && tokens[1..][i] == t;
          assert forall j :: 1 <= j < i + 1 ==> tokens[j] == tokens[1..][j - 1];
          assert FirstInvalid(tokens, i + 1);
          Err(t)
        case Ok(vs) => Ok([v] + vs)
  }

  /** Index of the first value that does not fit in two unsigned bytes, or `|vs|` if all fit. */
  function FirstUnfit(vs: seq<int>): (k: nat)
    ensures k <= |vs|
    ensures forall j :: 0 <= j < k ==> Fits(vs[j])
    ensures k < |vs| ==> !Fits(vs[k])
  {
    if vs == [] || !Fits(vs[0]) then 0 else 1 + FirstUnfit(vs[1..])
  }

  /** What the write loop leaves in the output file for the parsed values. */
  function Emit(values: seq<int>): Outcome {
    var k := FirstUnfit(values);
    assert AllFit(values[..k]);
    if k == |values| then
      assert values[..k] == values;
      Written(Image(values))
    else
      ValueOutOfRange(values[k], Image(values[..k]))
  }

  /** The write loop: converts and writes one value after the other, stopping at the first overflow. */
  method WriteInstructions(values: seq<int>) returns (outcome: Outcome)
    ensures outcome == Emit(values)
  {
    var written: seq<byte> := [];
    var i := 0;
    while i < |values|
      invariant 0 <= i <= |values|
      invariant AllFit(values[..i])
      invariant written == Image(values[..i])
    {
      var bytes := ToBytes(values[i]);
      if bytes.None? {
        assert FirstUnfit(values) == i;
        return ValueOutOfRange(values[i], written);
      }
      ImageSnoc(values[..i], values[i]);
      assert values[..i + 1] == values[..i] + [values[i]];
      written := written + bytes.value;
      i := i + 1;
    }
    assert values[..i] == values;
    assert FirstUnfit(values) == |values|;
    return Written(written);
  }

  /** Writing one more value appends its two bytes. */
  lemma ImageSnoc(vs: seq<int>, v: int)
    requires AllFit(vs) && Fits(v)
    ensures AllFit(vs + [v]) && Image(vs + [v]) == Image(vs) + ToBytes(v).value
  {
    ImageAppend(vs, [v]);
    assert [v][1..] == [];
    assert Image([v]) == ToBytes(v).value + [];
  }

  /** The whole run: filter, split, parse, then write. */
  function Assembled(lines: seq<string>): Outcome {
    match ParseTokens(TokensOf(lines))
    case Err(token) => InvalidToken(token)
    case Ok(values) => Emit(values)
  }

  /** The body of `main` from the comment filter to the write loop. */
  method Assemble(lines: seq<string>) returns (outcome: Outcome)
    ensures outcome == Assembled(lines)
  {
    var program := StripComments(lines);
    var instructions := ParseTokens(Split(program));
    if instructions.Err? {
      return InvalidToken(instructions.error);
    }
    outcome := WriteInstructions(instructions.value);
  }

  // Properties of the comment filter

  lemma {:induction false} KeptLinesAppend(a: seq<string>, b: seq<string>)
    ensures KeptLines(a + b) == KeptLines(a) + KeptLines(b)
    decreases |b|
  {
    if b == [] {
      assert a + b == a;
    } else {
      var b' := b[..|b| - 1];
      assert (a + b)[..|a + b| - 1] == a + b';
      assert (a + b)[|a + b| - 1] == b[|b| - 1];
      KeptLinesAppend(a, b');
    }
  }

  /** A line starting with `#` contributes nothing, wherever it stands. */
  lemma CommentLineContributesNothing(a: seq<string>, x: string, b: seq<string>)
    requires IsComment(x)
    ensures Program(a + [x] + b) == Program(a + b)
    ensures Assembled(a + [x] + b) == Assembled(a + b)
  {
    CommentLineDropped(a, x, b);
    assert TokensOf(a + [x] + b) == TokensOf(a + b);
  }

  lemma CommentLineDropped(a: seq<string>, x: string, b: seq<string>)
    requires IsComment(x)
    ensures KeptLines(a + [x] + b) == KeptLines(a + b)
  {
    KeptLinesAroundLine(a, x, b);
    KeptLinesAppend(a, b);
    KeptSingle(x);
    assert KeptLines(a) + [] + KeptLines(b) == KeptLines(a) + KeptLines(b);
  }

  /** Any other line, an indented `#` included, is kept verbatim, between what comes before and after it. */
  lemma OtherLineKeptVerbatim(a: seq<string>, x: string, b: seq<string>)
    requires !IsComment(x)
    ensures Program(a + [x] + b) == Program(a) + x + Program(b)
  {
    var ka, kb := KeptLines(a), KeptLines(b);
    KeptLinesAroundLine(a, x, b);
    KeptSingle(x);
    ConcatAppend(ka + [x], kb);
    ConcatAppend(ka, [x]);
    ConcatSingle(x);
  }

  lemma KeptLinesAroundLine(a: seq<string>, x: string, b: seq<string>)
    ensures KeptLines(a + [x] + b) == KeptLines(a) + KeptLines([x]) + KeptLines(b)
  {
    KeptLinesAppend(a + [x], b);
    KeptLinesAppend(a, [x]);
  }

  lemma KeptSingle(x: string)
    ensures KeptLines([x]) == if IsComment(x) then [] else [x]
  {
    assert [x][..0] == [];
  }

  lemma ConcatSingle(x: string)
    ensures Concat([x]) == x
  {
    assert [x][1..] == [];
    assert x + "" == x;
  }

  /** Without comment lines the program text is all lines, concatenated in order. */
  lemma {:induction false} NoCommentsKeepsAll(lines: seq<string>)
    requires forall i :: 0 <= i < |lines| ==> !IsComment(lines[i])
    ensures KeptLines(lines) == lines
    ensures Program(lines) == Concat(lines)
    decreases |lines|
  {
    if lines != [] {
      var init := lines[..|lines| - 1];
      NoCommentsKeepsAll(init);
      assert init + [lines[|lines| - 1]] == lines;
    }
  }

  /** Filtering an already filtered list of lines changes nothing. */
  lemma FilterIdempotent(lines: seq<string>)
    ensures KeptLines(KeptLines(lines)) == KeptLines(lines)
    ensures Program(KeptLines(lines)) == Program(lines)
  {
    var kept := KeptLines(lines);
    KeptLinesMembers(lines);
    forall i | 0 <= i < |kept| ensures !IsComment(kept[i]) {
      assert kept[i] in kept;
    }
    NoCommentsKeepsAll(kept);
  }

  // Properties of tokenising

  predicate EndsInSpace(line: string) {
    |line| > 0 && IsSpace(line[|line| - 1])
  }

  /** The tokens of each line, line after line. */
  function SplitEach(ls: seq<string>): seq<string> {
    if ls == [] then [] else Split(ls[0]) + SplitEach(ls[1..])
  }

  /** Texts that end in whitespace are split on their own: no token spans two of them. */
  lemma {:induction false} SplitConcat(ls: seq<string>)
    requires forall i :: 0 <= i < |ls| - 1 ==> EndsInSpace(ls[i])
    ensures Split(Concat(ls)) == SplitEach(ls)
  {
    if |ls| == 1 {
      SplitConcatSingle(ls);
    } else if |ls| > 1 {
      var l, rest := ls[0], ls[1..];
      SplitConcat(rest);
      SplitLineThenText(l, Concat(rest));
    }
  }

  lemma SplitConcatSingle(ls: seq<string>)
    requires |ls| == 1
    ensures Split(Concat(ls)) == SplitEach(ls)
  {
    var l := ls[0];
    assert ls[1..] == [];
    assert Concat(ls) == l + "";
    assert l + "" == l;
    assert SplitEach(ls) == Split(l) + [];
  }

  /** A text ending in whitespace, followed by anything, splits into its own tokens and then the rest. */
  lemma SplitLineThenText(l: string, t: string)
    requires EndsInSpace(l)
    ensures Split(l + t) == Split(l) + Split(t)
  {
    var p, w := l[..|l| - 1], l[|l| - 1];
    assert l == p + [w];
    assert l + t == p + [w] + t;
    SplitAtSpace(p, w, t);
    SplitAtSpace(p, w, "");
    assert l == p + [w] + "";
  }

  lemma KeptLinesEndInSpace(lines: seq<string>)
    requires forall i :: 0 <= i < |lines| ==> EndsInSpace(lines[i])
    ensures forall i :: 0 <= i < |KeptLines(lines)| ==> EndsInSpace(KeptLines(lines)[i])
  {
    var kept := KeptLines(lines);
    KeptLinesMembers(lines);
    forall i | 0 <= i < |kept| ensures EndsInSpace(kept[i]) {
      assert kept[i] in kept;
      var j :| 0 <= j < |lines| && lines[j] == kept[i];
    }
  }

  /**
   * For lines as `readlines()` produces them, each ending in a newline
   * except perhaps the last, the tokens are those of the kept lines, line by
   * line and in order.
   */
  lemma TokensLineByLine(lines: seq<string>)
    requires forall i :: 0 <= i < |lines| - 1 ==> EndsInSpace(lines[i])
    ensures TokensOf(lines) == SplitEach(KeptLines(lines))
  {
    if lines != [] {
      var init := lines[..|lines| - 1];
      var last := lines[|lines| - 1];
      var kept := KeptLines(init);
      assert forall i :: 0 <= i < |init| ==> init[i] == lines[i];
      KeptLinesEndInSpace(init);
      var all := KeptLines(lines);
      assert all == if IsComment(last) then kept else kept + [last];
      assert forall i :: 0 <= i < |all| - 1 ==> all[i] == kept[i];
      SplitConcat(all);
    }
  }

  lemma {:induction false} AllSpaceConcat(ls: seq<string>)
    requires forall i :: 0 <= i < |ls| ==> AllSpace(ls[i])
    ensures AllSpace(Concat(ls))
  {
    if ls != [] {
      AllSpaceConcat(ls[1..]);
      var c := Concat(ls);
      forall i | 0 <= i < |c| ensures IsSpace(c[i]) {
        if i >= |ls[0]| {
          assert c[i] == Concat(ls[1..])[i - |ls[0]|];
        }
      }
    }
  }

  // Properties of the whole run

  /** A program of comments and blank lines alone assembles to an empty image. */
  lemma OnlyCommentsAndBlankLines(lines: seq<string>)
    requires forall i :: 0 <= i < |lines| ==> IsComment(lines[i]) || AllSpace(lines[i])
    ensures Assembled(lines) == Written([])
  {
    var kept := KeptLines(lines);
    KeptLinesMembers(lines);
    forall i | 0 <= i < |kept| ensures AllSpace(kept[i]) {
      assert kept[i] in kept;
      var j :| 0 <= j < |lines| && lines[j] == kept[i];
    }
    AllSpaceConcat(kept);
    SplitEmptyIffAllSpace(Program(lines));
  }

  /** Size law: a successful run writes exactly two bytes per token. */
  lemma SizeLaw(lines: seq<string>, image: seq<byte>)
    requires Assembled(lines) == Written(image)
    ensures |image| == 2 * |TokensOf(lines)|
  {
    var values := WrittenValues(lines, image);
  }

  /**
   * Round trip: in a successful run, bytes 2k and 2k+1 of the image, read as
   * high * 256 + low, are the value of the k-th token; so the image decodes
   * to the token values in their order.
   */
  lemma RoundTrip(lines: seq<string>, image: seq<byte>)
    requires Assembled(lines) == Written(image)
    ensures ParseTokens(TokensOf(lines)).Ok?
    ensures |image| == 2 * |TokensOf(lines)|
    ensures Decode(image) == ParseTokens(TokensOf(lines)).value
    ensures forall k :: 0 <= k < |TokensOf(lines)| ==>
              ParseHex(TokensOf(lines)[k]) == Some(Word(image[2 * k], image[2 * k + 1]))
  {
    var tokens := TokensOf(lines);
    var values := WrittenValues(lines, image);
    DecodeImage(values);
    forall k | 0 <= k < |tokens| ensures ParseHex(tokens[k]) == Some(Word(image[2 * k], image[2 * k + 1])) {
      assert ParseHex(tokens[k]) == Some(values[k]);
    }
  }

  /** A successful run parsed every token and wrote the image of all the values. */
  lemma WrittenValues(lines: seq<string>, image: seq<byte>) returns (values: seq<int>)
    requires Assembled(lines) == Written(image)
    ensures ParseTokens(TokensOf(lines)) == Ok(values)
    ensures AllFit(values) && image == Image(values)
  {
    var parsed := ParseTokens(TokensOf(lines));
    assert parsed.Ok?;
    values := parsed.value;
    assert Emit(values) == Written(image);
    assert FirstUnfit(values) == |values|;
  }

  /** A token that is not a hexadecimal literal fails the run before anything is written, and only then. */
  lemma InvalidTokenIff(lines: seq<string>)
    ensures Assembled(lines).InvalidToken? <==>
              exists k :: 0 <= k < |TokensOf(lines)| && ParseHex(TokensOf(lines)[k]).None?
    ensures Assembled(lines).InvalidToken? ==>
              exists k :: FirstInvalid(TokensOf(lines), k) && TokensOf(lines)[k] == Assembled(lines).token
  {
    var parsed := ParseTokens(TokensOf(lines));
    if parsed.Ok? {
      assert Emit(parsed.value).Written? || Emit(parsed.value).ValueOutOfRange?;
    }
  }

  /** Value `k` is the first that does not fit, the outcome reports it and holds the image of the values before it. */
  predicate FirstOverflow(values: seq<int>, k: int, outcome: Outcome) {
    && 0 <= k < |values|
    && !Fits(values[k])
    && AllFit(values[..k])
    && outcome == ValueOutOfRange(values[k], Image(values[..k]))
  }

  /**
   * Encoding fails exactly when every token parses and some value is
   * negative or above 0xFFFF; the first such value is reported, and the image
   * then holds the bytes of the values before it.
   */
  lemma OverflowIff(lines: seq<string>)
    ensures Assembled(lines).ValueOutOfRange? <==>
              (ParseTokens(TokensOf(lines)).Ok? && !AllFit(ParseTokens(TokensOf(lines)).value))
    ensures Assembled(lines).ValueOutOfRange? ==>
              exists k :: FirstOverflow(ParseTokens(TokensOf(lines)).value, k, Assembled(lines))
  {
    var parsed := ParseTokens(TokensOf(lines));
    if parsed.Ok? {
      var k := FirstUnfit(parsed.value);
      if k < |parsed.value| {
        assert FirstOverflow(parsed.value, k, Assembled(lines));
      }
    }
  }

  /**
   * A `#` anywhere but at the start of a line is not a comment: it ends up
   * in a token that `int(_, 16)` rejects, so the run fails before anything is
   * written.
   */
  lemma HashInsideLineFails(lines: seq<string>, i: int, j: int)
    requires 0 <= i < |lines| && 0 <= j < |lines[i]|
    requires lines[i][j] == '#' && !IsComment(lines[i])
    ensures Assembled(lines).InvalidToken?
  {
    HashReachesProgram(lines, i, j);
    var tokens := TokensOf(lines);
    HashReachesToken(Program(lines));
    var m :| 0 <= m < |tokens| && '#' in tokens[m];
    if ParseHex(tokens[m]).Some? {
      ParseHexAlphabet(tokens[m]);
      assert false;
    }
    InvalidTokenIff(lines);
  }

  lemma HashReachesProgram(lines: seq<string>, i: int, j: int)
    requires 0 <= i < |lines| && 0 <= j < |lines[i]|
    requires lines[i][j] == '#' && !IsComment(lines[i])
    ensures '#' in Program(lines)
  {
    var kept := KeptLines(lines);
    KeptLinesMembers(lines);
    assert lines[i] in lines;
    var k :| 0 <= k < |kept| && kept[k] == lines[i];
    assert '#' in kept[k];
    InConcat(kept, '#');
  }

  lemma HashReachesToken(program: string)
    requires '#' in program
    ensures exists m :: 0 <= m < |Split(program)| && '#' in Split(program)[m]
  {
    InNonSpace(program, '#');
    SplitKeepsText(program);
    InConcat(Split(program), '#');
  }
}
