/**
 * Two concrete runs of the assembler, worked through the general lemmas: a
 * program with a comment line, and a program whose second value does not fit
 * in 16 bits, which leaves the bytes of the first value in the output file.
 */
module Scenarios {
  import opened Options
  import opened TextSplit
  import opened HexInt
  import opened BigEndian
  import opened Assembler

  /** A comment line, then `00E0` (clear the screen) and `1200` (jump to 0x200). */
  lemma ClearAndJump()
    ensures Assembled(["# clear the screen\n", "00E0 1200\n"]) == Written([0x00, 0xE0, 0x12, 0x00])
  {
    var lines := ["# clear the screen\n", "00E0 1200\n"];
    ClearAndJumpTokens();
    Digits00E0();
    Digits1200();
    ParseTwoPlainTokens("00E0", "1200", 0xE0, 0x1200);
    ClearAndJumpImage();
  }

  lemma ClearAndJumpTokens()
    ensures TokensOf(["# clear the screen\n", "00E0 1200\n"]) == ["00E0", "1200"]
  {
    var code := "00E0 1200\n";
    ClearAndJumpProgram();
    Digits00E0();
    Digits1200();
    assert code == "00E0" + [' '] + "1200" + "\n";
    SplitTwoTokens("00E0", ' ', "1200");
  }

  lemma ClearAndJumpProgram()
    ensures Program(["# clear the screen\n", "00E0 1200\n"]) == "00E0 1200\n"
  {
    var comment, code := "# clear the screen\n", "00E0 1200\n";
    assert [comment, code] == [] + [comment] + [code];
    CommentLineContributesNothing([], comment, [code]);
    assert [] + [code] == [code];
    OneCodeLine(code);
  }

  lemma ClearAndJumpImage()
    ensures Emit([0xE0, 0x1200]) == Written([0x00, 0xE0, 0x12, 0x00])
  {
    assert FirstUnfit([0xE0, 0x1200]) == 2;
    ImageDecode([0x00, 0xE0, 0x12, 0x00]);
  }

  /** `10000` is 0x10000, one more than two bytes hold: the run stops after writing `00E0`. */
  lemma OverflowAfterFirstValue()
    ensures Assembled(["00E0 10000\n"]) == ValueOutOfRange(0x10000, [0x00, 0xE0])
  {
    OverflowTokens();
    Digits00E0();
    Digits10000();
    ParseTwoPlainTokens("00E0", "10000", 0xE0, 0x10000);
    OverflowImage();
  }

  lemma OverflowTokens()
    ensures TokensOf(["00E0 10000\n"]) == ["00E0", "10000"]
  {
    var code := "00E0 10000\n";
    OneCodeLine(code);
    Digits00E0();
    Digits10000();
    assert code == "00E0" + [' '] + "10000" + "\n";
    SplitTwoTokens("00E0", ' ', "10000");
  }

  lemma OverflowImage()
    ensures Emit([0xE0, 0x10000]) == ValueOutOfRange(0x10000, [0x00, 0xE0])
  {
    var values := [0xE0, 0x10000];
    assert FirstUnfit(values) == 1;
    assert values[..1] == [0xE0];
    ImageDecode([0x00, 0xE0]);
  }

  /** `a`, a whitespace character, `b` and a newline split into the tokens `a` and `b`. */
  lemma SplitTwoTokens(a: string, w: char, b: string)
    requires IsSpace(w) && IsToken(a) && IsToken(b)
    ensures Split(a + [w] + b + "\n") == [a, b]
  {
    assert a + [w] + b + "\n" == a + [w] + (b + ['\n'] + "");
    SplitAtSpace(a, w, b + ['\n'] + "");
    SplitAtSpace(b, '\n', "");
    SplitOfToken(a);
    SplitOfToken(b);
  }

  lemma ParseTwoPlainTokens(a: string, b: string, x: nat, y: nat)
    requires |a| > 0 && AllHexDigits(a) && HexValue(a) == x
    requires |b| > 0 && AllHexDigits(b) && HexValue(b) == y
    ensures ParseTokens([a, b]) == Ok([x, y])
  {
    ParsePlainDigits(a);
    ParsePlainDigits(b);
    assert [a, b][1..] == [b];
    assert [b][1..] == [];
    assert ParseTokens([b]) == Ok([y] + []);
    assert [x] + ([y] + []) == [x, y];
  }

  /** A single line that is not a comment is the whole program text. */
  lemma OneCodeLine(code: string)
    requires !IsComment(code)
    ensures Program([code]) == code
  {
    NoCommentsKeepsAll([code]);
    assert Concat([code]) == code + "";
    assert code + "" == code;
  }

  lemma Digits00E0()
    ensures IsToken("00E0") && AllHexDigits("00E0") && HexValue("00E0") == 0xE0
  {
    HexValueSnoc("", '0');
    assert "" + ['0'] == "0";
    HexValueSnoc("0", '0');
    assert "0" + ['0'] == "00";
    HexValueSnoc("00", 'E');
    assert "00" + ['E'] == "00E";
    HexValueSnoc("00E", '0');
    assert "00E" + ['0'] == "00E0";
  }

  lemma Digits1200()
    ensures IsToken("1200") && AllHexDigits("1200") && HexValue("1200") == 0x1200
  {
    HexValueSnoc("", '1');
    assert "" + ['1'] == "1";
    HexValueSnoc("1", '2');
    assert "1" + ['2'] == "12";
    HexValueSnoc("12", '0');
    assert "12" + ['0'] == "120";
    HexValueSnoc("120", '0');
    assert "120" + ['0'] == "1200";
  }

  lemma Digits10000()
    ensures IsToken("10000") && AllHexDigits("10000") && HexValue("10000") == 0x10000
  {
    HexValueSnoc("", '1');
    assert "" + ['1'] == "1";
    HexValueSnoc("1", '0');
    assert "1" + ['0'] == "10";
    HexValueSnoc("10", '0');
    assert "10" + ['0'] == "100";
    HexValueSnoc("100", '0');
    assert "100" + ['0'] == "1000";
    HexValueSnoc("1000", '0');
    assert "1000" + ['0'] == "10000";
  }
}
