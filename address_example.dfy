/**
 * A worked example of `parse_email_addresses` on a typical recipient header,
 * `Jane Doe <jane@example.com>, bob@x.org`, evaluated step by step: the
 * characters, the runs of `[\w.-]`, where the pattern matches, and the spans.
 */
module AddressExample {
  import opened Wrappers
  import opened Headers

  const ExampleHeader: string := "Jane Doe <jane@example.com>, bob@x.org"

  lemma ExampleLength()
    ensures |ExampleHeader| == 38
  {
  }

  lemma ExampleChars0()
    ensures ExampleHeader[0] == 'J' && ExampleHeader[1] == 'a' && ExampleHeader[2] == 'n' && ExampleHeader[3] == 'e'
  {
  }

  lemma ExampleChars1()
    ensures ExampleHeader[4] == ' ' && ExampleHeader[5] == 'D' && ExampleHeader[6] == 'o' && ExampleHeader[7] == 'e'
  {
  }

  lemma ExampleChars2()
    ensures ExampleHeader[8] == ' ' && ExampleHeader[9] == '<' && ExampleHeader[10] == 'j' && ExampleHeader[11] == 'a'
  {
  }

  lemma ExampleChars3()
    ensures ExampleHeader[12] == 'n' && ExampleHeader[13] == 'e' && ExampleHeader[14] == '@' && ExampleHeader[15] == 'e'
  {
  }

  lemma ExampleChars4()
    ensures ExampleHeader[16] == 'x' && ExampleHeader[17] == 'a' && ExampleHeader[18] == 'm' && ExampleHeader[19] == 'p'
  {
  }

  lemma ExampleChars5()
    ensures ExampleHeader[20] == 'l' && ExampleHeader[21] == 'e' && ExampleHeader[22] == '.' && ExampleHeader[23] == 'c'
  {
  }

  lemma ExampleChars6()
    ensures ExampleHeader[24] == 'o' && ExampleHeader[25] == 'm' && ExampleHeader[26] == '>' && ExampleHeader[27] == ','
  {
  }

  lemma ExampleChars7()
    ensures ExampleHeader[28] == ' ' && ExampleHeader[29] == 'b' && ExampleHeader[30] == 'o' && ExampleHeader[31] == 'b'
  {
  }

  lemma ExampleChars8()
    ensures ExampleHeader[32] == '@' && ExampleHeader[33] == 'x' && ExampleHeader[34] == '.' && ExampleHeader[35] == 'o'
  {
  }

  lemma ExampleChars9()
    ensures ExampleHeader[36] == 'r' && ExampleHeader[37] == 'g'
  {
  }

  lemma ExampleRun0()
    ensures RunEnd(ExampleHeader, 0) == 4 && RunEnd(ExampleHeader, 1) == 4 && RunEnd(ExampleHeader, 2) == 4 && RunEnd(ExampleHeader, 3) == 4
  {
    ExampleLength();
    ExampleChars0();
    ExampleChars1();
    assert RunEnd(ExampleHeader, 3) == 4;
    assert RunEnd(ExampleHeader, 2) == 4;
    assert RunEnd(ExampleHeader, 1) == 4;
    assert RunEnd(ExampleHeader, 0) == 4;
  }

  lemma ExampleRun1()
    ensures RunEnd(ExampleHeader, 5) == 8 && RunEnd(ExampleHeader, 6) == 8 && RunEnd(ExampleHeader, 7) == 8
  {
    ExampleLength();
    ExampleChars1();
    ExampleChars2();
    assert RunEnd(ExampleHeader, 7) == 8;
    assert RunEnd(ExampleHeader, 6) == 8;
    assert RunEnd(ExampleHeader, 5) == 8;
  }

  lemma ExampleRun2()
    ensures RunEnd(ExampleHeader, 10) == 14 && RunEnd(ExampleHeader, 11) == 14 && RunEnd(ExampleHeader, 12) == 14 && RunEnd(ExampleHeader, 13) == 14
  {
    ExampleLength();
    ExampleChars2();
    ExampleChars3();
    assert RunEnd(ExampleHeader, 13) == 14;
    assert RunEnd(ExampleHeader, 12) == 14;
    assert RunEnd(ExampleHeader, 11) == 14;
    assert RunEnd(ExampleHeader, 10) == 14;
  }

  lemma ExampleRun3()
    ensures RunEnd(ExampleHeader, 15) == 26 && RunEnd(ExampleHeader, 16) == 26 && RunEnd(ExampleHeader, 17) == 26 && RunEnd(ExampleHeader, 18) == 26 && RunEnd(ExampleHeader, 19) == 26 && RunEnd(ExampleHeader, 20) == 26 && RunEnd(ExampleHeader, 21) == 26 && RunEnd(ExampleHeader, 22) == 26 && RunEnd(ExampleHeader, 23) == 26 && RunEnd(ExampleHeader, 24) == 26 && RunEnd(ExampleHeader, 25) == 26
  {
    ExampleLength();
    ExampleChars3();
    ExampleChars4();
    ExampleChars5();
    ExampleChars6();
    assert RunEnd(ExampleHeader, 25) == 26;
    assert RunEnd(ExampleHeader, 24) == 26;
    assert RunEnd(ExampleHeader, 23) == 26;
    assert RunEnd(ExampleHeader, 22) == 26;
    assert RunEnd(ExampleHeader, 21) == 26;
    assert RunEnd(ExampleHeader, 20) == 26;
    assert RunEnd(ExampleHeader, 19) == 26;
    assert RunEnd(ExampleHeader, 18) == 26;
    assert RunEnd(ExampleHeader, 17) == 26;
    assert RunEnd(ExampleHeader, 16) == 26;
    assert RunEnd(ExampleHeader, 15) == 26;
  }

  lemma ExampleRun4()
    ensures RunEnd(ExampleHeader, 29) == 32 && RunEnd(ExampleHeader, 30) == 32 && RunEnd(ExampleHeader, 31) == 32
  {
    ExampleLength();
    ExampleChars7();
    ExampleChars8();
    assert RunEnd(ExampleHeader, 31) == 32;
    assert RunEnd(ExampleHeader, 30) == 32;
    assert RunEnd(ExampleHeader, 29) == 32;
  }

  lemma ExampleRun5()
    ensures RunEnd(ExampleHeader, 33) == 38 && RunEnd(ExampleHeader, 34) == 38 && RunEnd(ExampleHeader, 35) == 38 && RunEnd(ExampleHeader, 36) == 38 && RunEnd(ExampleHeader, 37) == 38
  {
    ExampleLength();
    ExampleChars8();
    ExampleChars9();
    assert RunEnd(ExampleHeader, 37) == 38;
    assert RunEnd(ExampleHeader, 36) == 38;
    assert RunEnd(ExampleHeader, 35) == 38;
    assert RunEnd(ExampleHeader, 34) == 38;
    assert RunEnd(ExampleHeader, 33) == 38;
  }

  lemma ExampleMatches()
    ensures MatchAt(ExampleHeader, 0) == None
    ensures MatchAt(ExampleHeader, 1) == None
    ensures MatchAt(ExampleHeader, 2) == None
    ensures MatchAt(ExampleHeader, 3) == None
    ensures MatchAt(ExampleHeader, 4) == None
    ensures MatchAt(ExampleHeader, 5) == None
    ensures MatchAt(ExampleHeader, 6) == None
    ensures MatchAt(ExampleHeader, 7) == None
    ensures MatchAt(ExampleHeader, 8) == None
    ensures MatchAt(ExampleHeader, 9) == None
    ensures MatchAt(ExampleHeader, 10) == Some(26)
    ensures MatchAt(ExampleHeader, 26) == None
    ensures MatchAt(ExampleHeader, 27) == None
    ensures MatchAt(ExampleHeader, 28) == None
    ensures MatchAt(ExampleHeader, 29) == Some(38)
  {
    ExampleLength();
    ExampleChars0();
    ExampleChars1();
    ExampleChars2();
    ExampleChars3();
    ExampleChars4();
    ExampleChars5();
    ExampleChars6();
    ExampleChars7();
    ExampleChars8();
    ExampleChars9();
    ExampleRun0();
    ExampleRun1();
    ExampleRun2();
    ExampleRun3();
    ExampleRun4();
    ExampleRun5();
  }

  lemma ExampleSpansBare()
    ensures Spans(ExampleHeader, 26) == [(29, 38)]
  {
    ExampleLength();
    ExampleMatches();
    assert Spans(ExampleHeader, 38) == [];
    assert Spans(ExampleHeader, 29) == [(29, 38)];
    assert Spans(ExampleHeader, 28) == [(29, 38)];
    assert Spans(ExampleHeader, 27) == [(29, 38)];
  }

  lemma ExampleSpans()
    ensures Spans(ExampleHeader, 0) == [(10, 26), (29, 38)]
  {
    ExampleLength();
    ExampleMatches();
    ExampleSpansBare();
    assert Spans(ExampleHeader, 10) == [(10, 26), (29, 38)];
    assert Spans(ExampleHeader, 9) == [(10, 26), (29, 38)];
    assert Spans(ExampleHeader, 8) == [(10, 26), (29, 38)];
    assert Spans(ExampleHeader, 7) == [(10, 26), (29, 38)];
    assert Spans(ExampleHeader, 6) == [(10, 26), (29, 38)];
    assert Spans(ExampleHeader, 5) == [(10, 26), (29, 38)];
    assert Spans(ExampleHeader, 4) == [(10, 26), (29, 38)];
    assert Spans(ExampleHeader, 3) == [(10, 26), (29, 38)];
    assert Spans(ExampleHeader, 2) == [(10, 26), (29, 38)];
    assert Spans(ExampleHeader, 1) == [(10, 26), (29, 38)];
  }

  lemma ExampleAddress0()
    ensures ExampleHeader[10..26] == "jane@example.com"
  {
    ExampleLength();
    ExampleChars2();
    ExampleChars3();
    ExampleChars4();
    ExampleChars5();
    ExampleChars6();
    var t := ExampleHeader[10..26];
    assert t[0] == 'j' && t[1] == 'a' && t[2] == 'n' && t[3] == 'e' && t[4] == '@' && t[5] == 'e' && t[6] == 'x' && t[7] == 'a' && t[8] == 'm' && t[9] == 'p' && t[10] == 'l' && t[11] == 'e' && t[12] == '.' && t[13] == 'c' && t[14] == 'o' && t[15] == 'm';
  }

  lemma ExampleAddress1()
    ensures ExampleHeader[29..38] == "bob@x.org"
  {
    ExampleLength();
    ExampleChars7();
    ExampleChars8();
    ExampleChars9();
    var t := ExampleHeader[29..38];
    assert t[0] == 'b' && t[1] == 'o' && t[2] == 'b' && t[3] == '@' && t[4] == 'x' && t[5] == '.' && t[6] == 'o' && t[7] == 'r' && t[8] == 'g';
  }

  /** Parsing `h` gives exactly the two addresses `a` and `b`, in that order. */
  ghost predicate ParsesToTwo(h: string, a: string, b: string) {
    var r := ParseEmailAddresses(h);
    |r| == 2 && r[0] == a && r[1] == b
  }

  /** A display name, an angle-bracketed address and a bare one: `Jane Doe <jane@example.com>, bob@x.org`. */
  lemma ParseExample()
    ensures ParsesToTwo(ExampleHeader, "jane@example.com", "bob@x.org")
  {
    ExampleLength();
    ExampleSpans();
    ExampleAddress0();
    ExampleAddress1();
    var r := ParseEmailAddresses(ExampleHeader);
    var sp := Spans(ExampleHeader, 0);
    assert |r| == |sp| == 2;
    assert r[0] == ExampleHeader[sp[0].0..sp[0].1] == ExampleHeader[10..26];
    assert r[1] == ExampleHeader[sp[1].0..sp[1].1] == ExampleHeader[29..38];
  }
}
