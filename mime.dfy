/**
 * Body extraction from a message payload: `decode_body`, the tag stripping of
 * the HTML fallback, and the recursive walk of `get_body_text`.
 */
module Mime {
  import opened Wrappers
  import opened Text
  import opened Base64
  import opened Headers

  /**
   * One node of a payload's MIME tree. `bodyData` and `attachmentId` are the
   * `body.data` and `body.attachmentId` keys, `None` when absent; a missing
   * `mimeType` or `filename` reads as "".
   */
  datatype Part = Part(
    mimeType: string,
    filename: string,
    bodyData: Option<string>,
    attachmentId: Option<string>,
    headers: seq<Header>,
    parts: seq<Part>)

  /** UTF-8 decoding with replacement of bad sequences, a library call the model takes as given. */
  type Utf8Decoder = seq<byte> -> string

  /** `decode_body`: empty data, and data the base64 decoder rejects, give "". */
  function DecodeBody(data: string, utf8: Utf8Decoder): (r: string)
    ensures data == "" ==> r == ""
    ensures UrlSafeDecode(data).None? ==> r == ""
    ensures data != "" && UrlSafeDecode(data).Some? ==> r == utf8(UrlSafeDecode(data).value)
  {
    if data == "" then ""
    else match UrlSafeDecode(data)
      case None => ""
      case Some(bytes) => utf8(bytes)
  }

  /** Data the mailbox API encoded from some bytes decodes back to the text of those bytes. */
  lemma DecodeBodyOfEncoded(b: seq<byte>, utf8: Utf8Decoder)
    requires b != []
    ensures DecodeBody(Encode(b), utf8) == utf8(b)
  {
    UrlSafeRoundTrip(b);
  }

  // ---------------------------------------------------------------------------
  // `re.sub(r"<[^>]+>", "", html)`

  /** The first `>` at or after `from`. */
  function FindGt(s: string, from: nat): (r: Option<nat>)
    requires from <= |s|
    ensures r.Some? ==> from <= r.value < |s| && s[r.value] == '>' &&
                        forall m :: from <= m < r.value ==> s[m] != '>'
    ensures r.None? ==> forall m :: from <= m < |s| ==> s[m] != '>'
    decreases |s| - from
  {
    if from == |s| then None
    else if s[from] == '>' then Some(from)
    else FindGt(s, from + 1)
  }

  /**
   * Where a tag match tried at `i` ends (just past its `>`): a `<`, at least
   * one character that is not `>`, then the first `>` after them.
   */
  function TagAt(s: string, i: nat): Option<nat>
    requires i < |s|
  {
    if s[i] == '<' && i + 1 < |s| && s[i + 1] != '>' then
      match FindGt(s, i + 2)
      case Some(g) => Some(g + 1)
      case None => None
    else None
  }

  /** What the substitution keeps from position `i` on: never more than the characters there are. */
  function StripFrom(s: string, i: nat): (r: string)
    requires i <= |s|
    ensures |r| <= |s| - i
    decreases |s| - i
  {
    if i == |s| then ""
    else match TagAt(s, i)
      case Some(e) => StripFrom(s, e)
      case None => [s[i]] + StripFrom(s, i + 1)
  }

  /** `re.sub(r"<[^>]+>", "", html)`: stripping never lengthens the text. */
  function StripTags(html: string): (r: string)
    ensures |r| <= |html|
  {
    StripFrom(html, 0)
  }

  /** `t` contains a substring matching `<[^>]+>`. */
  ghost predicate ContainsTag(t: string) {
    exists a, b :: 0 <= a && a + 1 < b < |t| && t[a] == '<' && t[b] == '>' && NoGtBetween(t, a, b)
  }

  ghost predicate NoGtBetween(t: string, a: int, b: int)
    requires 0 <= a <= b <= |t|
  {
    forall m :: a < m < b ==> t[m] != '>'
  }

  ghost predicate GtFreeFrom(t: string, j: int) {
    forall m :: j <= m < |t| && 0 <= m ==> t[m] != '>'
  }

  /** Every `<` of `t` is its last character, is followed by `>`, or has no `>` anywhere after it. */
  ghost predicate LtHarmless(t: string) {
    forall a :: 0 <= a < |t| && t[a] == '<' ==> a + 1 == |t| || t[a + 1] == '>' || GtFreeFrom(t, a + 1)
  }

  lemma HarmlessMeansNoTag(t: string)
    requires LtHarmless(t)
    ensures !ContainsTag(t)
  {
    forall a, b | 0 <= a && a + 1 < b < |t| && t[a] == '<' && t[b] == '>'
      ensures !NoGtBetween(t, a, b)
    {
      assert t[a + 1] == '>' || GtFreeFrom(t, a + 1);
      assert t[a + 1] == '>' ==> a < a + 1 < b;
    }
  }

  /** What the stripping loop keeps from position `i` on. */
  lemma {:induction false} StripFromSpec(s: string, i: nat)
    requires i <= |s|
    ensures GtFreeFrom(s, i) ==> GtFreeFrom(StripFrom(s, i), 0)
    ensures i < |s| && s[i] == '>' ==> |StripFrom(s, i)| > 0 && StripFrom(s, i)[0] == '>'
    ensures LtHarmless(StripFrom(s, i))
    decreases |s| - i
  {
    if i < |s| {
      match TagAt(s, i)
      case Some(e) =>
        StripFromSpec(s, e);
      case None =>
        StripFromSpec(s, i + 1);
        var rest := StripFrom(s, i + 1);
        var out := [s[i]] + rest;
        assert StripFrom(s, i) == out;
        forall a | 0 <= a < |out| && out[a] == '<'
          ensures a + 1 == |out| || out[a + 1] == '>' || GtFreeFrom(out, a + 1)
        {
          if a > 0 {
            assert rest[a - 1] == '<';
            if a < |rest| && rest[a] == '>' {
              assert out[a + 1] == '>';
            } else if a < |rest| {
              assert GtFreeFrom(rest, a);
              forall m | a + 1 <= m < |out| ensures out[m] != '>' { assert out[m] == rest[m - 1]; }
            }
          } else if i + 1 < |s| {
            if s[i + 1] == '>' {
              assert out[1] == rest[0];
            } else {
              assert FindGt(s, i + 2).None?;
              assert GtFreeFrom(s, i + 1);
              forall m | 1 <= m < |out| ensures out[m] != '>' { assert out[m] == rest[m - 1]; }
            }
          }
        }
        forall m | GtFreeFrom(s, i) && 0 <= m < |out| ensures out[m] != '>' {
          if m > 0 {
            assert out[m] == rest[m - 1];
          }
        }
    }
  }

  /** The HTML fallback's text contains no substring matching `<[^>]+>`. */
  lemma StripTagsLeavesNoTag(html: string)
    ensures !ContainsTag(StripTags(html))
  {
    StripFromSpec(html, 0);
    HarmlessMeansNoTag(StripTags(html));
  }

  /** Text without `<` passes through unchanged. */
  lemma {:induction false} StripFromNoLt(s: string, i: nat)
    requires i <= |s|
    requires forall m :: i <= m < |s| ==> s[m] != '<'
    ensures StripFrom(s, i) == s[i..]
    decreases |s| - i
  {
    if i < |s| {
      StripFromNoLt(s, i + 1);
      assert s[i..] == [s[i]] + s[i + 1..];
    }
  }

  lemma StripTagsPlainText(text: string)
    requires forall m :: 0 <= m < |text| ==> text[m] != '<'
    ensures StripTags(text) == text
  {
    StripFromNoLt(text, 0);
  }

  // The substitution works forward only: what comes before position `|p|`
  // cannot change how `p + b` is stripped from there on.

  lemma {:induction false} FindGtShift(p: string, b: string, k: nat)
    requires k <= |b|
    ensures FindGt(p + b, |p| + k) == if FindGt(b, k).Some? then Some(|p| + FindGt(b, k).value) else None
    decreases |b| - k
  {
    if k < |b| {
      assert (p + b)[|p| + k] == b[k];
      if b[k] != '>' {
        FindGtShift(p, b, k + 1);
      }
    }
  }

  lemma TagAtShift(p: string, b: string, j: nat)
    requires j < |b|
    ensures TagAt(p + b, |p| + j) == if TagAt(b, j).Some? then Some(|p| + TagAt(b, j).value) else None
  {
    assert (p + b)[|p| + j] == b[j];
    if j + 1 < |b| {
      assert (p + b)[|p| + j + 1] == b[j + 1];
      if b[j] == '<' && b[j + 1] != '>' {
        FindGtShift(p, b, j + 2);
      }
    }
  }

  lemma {:induction false} StripFromShift(p: string, b: string, j: nat)
    requires j <= |b|
    ensures StripFrom(p + b, |p| + j) == StripFrom(b, j)
    decreases |b| - j
  {
    if j < |b| {
      TagAtShift(p, b, j);
      match TagAt(b, j)
      case Some(e) =>
        StripFromShift(p, b, e);
      case None =>
        assert (p + b)[|p| + j] == b[j];
        StripFromShift(p, b, j + 1);
    }
  }

  /** Text without `<` in front of the rest is kept as it is, and the rest is stripped on its own. */
  lemma {:induction false} StripFromKeepsText(a: string, b: string, i: nat)
    requires i <= |a| && forall m :: i <= m < |a| ==> a[m] != '<'
    ensures StripFrom(a + b, i) == a[i..] + StripTags(b)
    decreases |a| - i
  {
    if i == |a| {
      StripFromShift(a, b, 0);
      assert a[i..] + StripTags(b) == StripTags(b);
    } else {
      var s := a + b;
      assert s[i] == a[i] && s[i] != '<';
      assert TagAt(s, i).None?;
      assert StripFrom(s, i) == [s[i]] + StripFrom(s, i + 1);
      StripFromKeepsText(a, b, i + 1);
      assert a[i..] + StripTags(b) == [a[i]] + (a[i + 1..] + StripTags(b)) by {
        assert a[i..] == [a[i]] + a[i + 1..];
      }
    }
  }

  lemma {:induction false} FindGtFirst(s: string, from: nat, g: nat)
    requires from <= g < |s| && s[g] == '>' && forall m :: from <= m < g ==> s[m] != '>'
    ensures FindGt(s, from) == Some(g)
    decreases g - from
  {
    if from < g {
      FindGtFirst(s, from + 1, g);
    }
  }

  /** A leading tag `<x>`, with `x` non-empty and free of `>`, is removed whole. */
  lemma StripTagsDropsLeadingTag(x: string, b: string)
    requires |x| > 0 && forall m :: 0 <= m < |x| ==> x[m] != '>'
    ensures StripTags("<" + x + ">" + b) == StripTags(b)
  {
    var t := "<" + x + ">";
    var s := t + b;
    assert |t| == |x| + 2;
    assert s[0] == '<' && s[1] == x[0] && s[|x| + 1] == '>';
    forall m | 2 <= m < |x| + 1 ensures s[m] != '>' {
      assert s[m] == x[m - 1];
    }
    FindGtFirst(s, 2, |x| + 1);
    assert TagAt(s, 0) == Some(|t|);
    StripFromShift(t, b, 0);
  }

  /**
   * Stripping removes each tag and keeps the text around it: text `a` without
   * `<`, then a tag `<x>`, then anything `b`, becomes `a` followed by `b` stripped.
   */
  lemma StripTagsKeepsTextAroundTag(a: string, x: string, b: string)
    requires forall m :: 0 <= m < |a| ==> a[m] != '<'
    requires |x| > 0 && forall m :: 0 <= m < |x| ==> x[m] != '>'
    ensures StripTags(a + "<" + x + ">" + b) == a + StripTags(b)
  {
    var rest := "<" + x + ">" + b;
    assert a + "<" + x + ">" + b == a + rest;
    StripFromKeepsText(a, rest, 0);
    assert a[0..] == a;
    StripTagsDropsLeadingTag(x, b);
  }

  /** A leading `<` that starts no tag (nothing follows it, `>` follows it, or no `>` comes later) is kept. */
  lemma StripTagsKeepsLeadingStrayLt(b: string)
    requires b == "" || b[0] == '>' || '>' !in b
    ensures StripTags("<" + b) == "<" + StripTags(b)
  {
    var s := "<" + b;
    assert s[0] == '<';
    if b != "" && b[0] != '>' {
      assert s[1] == b[0];
      forall m | 2 <= m < |s| ensures s[m] != '>' {
        assert s[m] == b[m - 1];
      }
      assert FindGt(s, 2).None?;
    }
    assert TagAt(s, 0).None?;
    StripFromShift("<", b, 0);
  }

  /**
   * A `<` that starts no tag is kept, as the `+` of `<[^>]+>` demands: text `a`
   * without `<`, then such a `<`, then `b`, becomes `a<` followed by `b` stripped.
   */
  lemma StripTagsKeepsStrayLt(a: string, b: string)
    requires forall m :: 0 <= m < |a| ==> a[m] != '<'
    requires b == "" || b[0] == '>' || '>' !in b
    ensures StripTags(a + "<" + b) == a + "<" + StripTags(b)
  {
    var rest := "<" + b;
    assert a + "<" + b == a + rest;
    StripFromKeepsText(a, rest, 0);
    assert a[0..] == a;
    StripTagsKeepsLeadingStrayLt(b);
  }

  /** The tag stripping removes markup and keeps the inner text: `<p>Hi</p>` becomes `Hi`. */
  lemma StripTagsExample()
    ensures StripTags("<p>Hi</p>") == "Hi"
  {
    var s := "<p>Hi</p>";
    assert s[0] == '<' && s[1] == 'p' && s[2] == '>' && s[3] == 'H' && s[4] == 'i';
    assert s[5] == '<' && s[6] == '/' && s[7] == 'p' && s[8] == '>';
    assert FindGt(s, 2) == Some(2);
    assert FindGt(s, 7) == Some(8);
    assert StripFrom(s, 9) == "";
    assert StripFrom(s, 5) == "";
    assert StripFrom(s, 4) == "i";
    assert StripFrom(s, 3) == "Hi";
  }

  /** Nested markup: `<p>Hi <b>you</b></p>` becomes `Hi you`. */
  lemma StripTagsNestedExample()
    ensures StripTags("<p>Hi <b>you</b></p>") == "Hi you"
  {
    var s := "<p>Hi <b>you</b></p>";
    assert s[0] == '<' && s[1] == 'p' && s[2] == '>' && s[3] == 'H' && s[4] == 'i' && s[5] == ' ';
    assert s[6] == '<' && s[7] == 'b' && s[8] == '>' && s[9] == 'y' && s[10] == 'o' && s[11] == 'u';
    assert s[12] == '<' && s[13] == '/' && s[14] == 'b' && s[15] == '>';
    assert s[16] == '<' && s[17] == '/' && s[18] == 'p' && s[19] == '>';
    assert FindGt(s, 2) == Some(2);
    assert FindGt(s, 8) == Some(8);
    assert FindGt(s, 15) == Some(15);
    assert FindGt(s, 14) == Some(15);
    assert FindGt(s, 19) == Some(19);
    assert FindGt(s, 18) == Some(19);
    assert StripFrom(s, 20) == "";
    assert StripFrom(s, 16) == "";
    assert StripFrom(s, 12) == "";
    assert StripFrom(s, 11) == "u";
    assert StripFrom(s, 10) == "ou";
    assert StripFrom(s, 9) == "you";
    assert StripFrom(s, 6) == "you";
    assert StripFrom(s, 5) == " you";
    assert StripFrom(s, 4) == "i you";
    assert StripFrom(s, 3) == "Hi you";
  }

  // ---------------------------------------------------------------------------
  // `get_body_text`

  function DataOf(p: Part): string {
    p.bodyData.GetOr("")
  }

  predicate IsMultipart(mimeType: string) {
    StartsWith(mimeType, "multipart/")
  }

  /**
   * The text of one part: its own non-empty body data; otherwise the first
   * pass over its children (plain text and nested multiparts); otherwise the
   * HTML fallback over the same children.
   */
  function PartText(p: Part, utf8: Utf8Decoder): (r: string)
    ensures DataOf(p) == "" && PlainPass(p, 0, utf8).None? ==> !ContainsTag(r)
    decreases p, |p.parts| + 1
  {
    if DataOf(p) != "" then DecodeBody(DataOf(p), utf8)
    else match PlainPass(p, 0, utf8)
      case Some(t) => t
      case None => HtmlPass(p.parts, 0, utf8)
  }

  /**
   * The first loop over `p.parts` from index `i`: a `text/plain` part ends the
   * search with its decoded data, even when that is ""; a `multipart/` part
   * is searched recursively and ends the search only with a non-empty text.
   */
  function PlainPass(p: Part, i: nat, utf8: Utf8Decoder): (r: Option<string>)
    requires i <= |p.parts|
    ensures r.None? ==> forall k :: i <= k < |p.parts| ==> p.parts[k].mimeType != "text/plain"
    ensures r.Some? ==> exists k :: i <= k < |p.parts| && (p.parts[k].mimeType == "text/plain" || IsMultipart(p.parts[k].mimeType))
    decreases p, |p.parts| - i
  {
    if i == |p.parts| then None
    else
      var q := p.parts[i];
      if q.mimeType == "text/plain" then Some(DecodeBody(DataOf(q), utf8))
      else if IsMultipart(q.mimeType) && PartText(q, utf8) != "" then Some(PartText(q, utf8))
      else PlainPass(p, i + 1, utf8)
  }

  /** The second loop: the first `text/html` part, decoded and stripped of tags, or "". */
  function HtmlPass(parts: seq<Part>, i: nat, utf8: Utf8Decoder): (r: string)
    requires i <= |parts|
    ensures !ContainsTag(r)
    ensures (forall k :: i <= k < |parts| ==> parts[k].mimeType != "text/html") ==> r == ""
    decreases |parts| - i
  {
    if i == |parts| then ""
    else if parts[i].mimeType == "text/html" then
      StripTagsLeavesNoTag(DecodeBody(DataOf(parts[i]), utf8));
      StripTags(DecodeBody(DataOf(parts[i]), utf8))
    else HtmlPass(parts, i + 1, utf8)
  }

  /** A part at which the first loop returns. */
  predicate Stops(q: Part, utf8: Utf8Decoder) {
    q.mimeType == "text/plain" || (IsMultipart(q.mimeType) && PartText(q, utf8) != "")
  }

  /** What the first loop returns at a part where it stops. */
  function StopText(q: Part, utf8: Utf8Decoder): string {
    if q.mimeType == "text/plain" then DecodeBody(DataOf(q), utf8) else PartText(q, utf8)
  }

  /** `parts[k]` is the first part from index `i` on at which the first loop stops. */
  predicate FirstStopAt(parts: seq<Part>, i: nat, k: int, utf8: Utf8Decoder) {
    i <= k < |parts| && Stops(parts[k], utf8) && forall j :: i <= j < k ==> !Stops(parts[j], utf8)
  }

  predicate NoStopFrom(parts: seq<Part>, i: nat, utf8: Utf8Decoder) {
    forall j :: i <= j < |parts| ==> !Stops(parts[j], utf8)
  }

  /** The first loop finds nothing exactly when no part stops it, and otherwise returns at the first part that does. */
  lemma {:induction false} PlainPassFirstStop(p: Part, i: nat, utf8: Utf8Decoder)
    requires i <= |p.parts|
    ensures PlainPass(p, i, utf8).None? <==> NoStopFrom(p.parts, i, utf8)
    ensures forall k :: FirstStopAt(p.parts, i, k, utf8) ==> PlainPass(p, i, utf8) == Some(StopText(p.parts[k], utf8))
    decreases |p.parts| - i
  {
    if i < |p.parts| {
      PlainPassFirstStop(p, i + 1, utf8);
      forall k | FirstStopAt(p.parts, i, k, utf8)
        ensures PlainPass(p, i, utf8) == Some(StopText(p.parts[k], utf8))
      {
        if k > i {
          assert !Stops(p.parts[i], utf8);
          assert FirstStopAt(p.parts, i + 1, k, utf8);
        }
      }
      if !Stops(p.parts[i], utf8) {
        assert NoStopFrom(p.parts, i, utf8) <==> NoStopFrom(p.parts, i + 1, utf8);
      }
    }
  }

  /** Some part from `i` on stops the first loop, so there is a first one. */
  lemma {:induction false} FirstStopExists(parts: seq<Part>, i: nat, utf8: Utf8Decoder)
    requires i <= |parts| && !NoStopFrom(parts, i, utf8)
    ensures exists k :: FirstStopAt(parts, i, k, utf8)
    decreases |parts| - i
  {
    if Stops(parts[i], utf8) {
      assert FirstStopAt(parts, i, i, utf8);
    } else {
      FirstStopExists(parts, i + 1, utf8);
      var k :| FirstStopAt(parts, i + 1, k, utf8);
      assert FirstStopAt(parts, i, k, utf8);
    }
  }

  /** `parts[k]` is the first `text/html` part from index `i` on. */
  predicate FirstHtmlAt(parts: seq<Part>, i: nat, k: int) {
    i <= k < |parts| && parts[k].mimeType == "text/html" &&
    forall j :: i <= j < k ==> parts[j].mimeType != "text/html"
  }

  /** The HTML fallback from `i` returns the stripped text of the first `text/html` part at `k`. */
  lemma {:induction false} HtmlPassAt(parts: seq<Part>, i: nat, k: nat, utf8: Utf8Decoder)
    requires FirstHtmlAt(parts, i, k)
    ensures HtmlPass(parts, i, utf8) == StripTags(DecodeBody(DataOf(parts[k]), utf8))
    decreases k - i
  {
    if k > i {
      assert FirstHtmlAt(parts, i + 1, k);
      HtmlPassAt(parts, i + 1, k, utf8);
    }
  }

  /** The HTML fallback strips the first `text/html` part, and is "" when there is none. */
  lemma HtmlPassFirstHtml(parts: seq<Part>, i: nat, utf8: Utf8Decoder)
    requires i <= |parts|
    ensures (forall j :: i <= j < |parts| ==> parts[j].mimeType != "text/html") ==> HtmlPass(parts, i, utf8) == ""
    ensures forall k :: FirstHtmlAt(parts, i, k) ==> HtmlPass(parts, i, utf8) == StripTags(DecodeBody(DataOf(parts[k]), utf8))
    ensures !ContainsTag(HtmlPass(parts, i, utf8))
  {
    forall k | FirstHtmlAt(parts, i, k)
      ensures HtmlPass(parts, i, utf8) == StripTags(DecodeBody(DataOf(parts[k]), utf8))
    {
      HtmlPassAt(parts, i, k, utf8);
    }
  }

  /**
   * The precedence of `get_body_text` on one part: its own body data first;
   * then the first `text/plain` part or non-empty `multipart/` part among its
   * children; only when neither exists, the first `text/html` child without tags.
   */
  lemma BodyPrecedence(p: Part, utf8: Utf8Decoder)
    ensures DataOf(p) != "" ==> PartText(p, utf8) == DecodeBody(DataOf(p), utf8)
    ensures forall k :: DataOf(p) == "" && FirstStopAt(p.parts, 0, k, utf8) ==> PartText(p, utf8) == StopText(p.parts[k], utf8)
    ensures DataOf(p) == "" && NoStopFrom(p.parts, 0, utf8) ==> PartText(p, utf8) == HtmlPass(p.parts, 0, utf8)
    ensures DataOf(p) == "" && NoStopFrom(p.parts, 0, utf8) ==> !ContainsTag(PartText(p, utf8))
    ensures DataOf(p) == "" && !NoStopFrom(p.parts, 0, utf8) ==> exists k :: FirstStopAt(p.parts, 0, k, utf8)
  {
    PlainPassFirstStop(p, 0, utf8);
    HtmlPassFirstHtml(p.parts, 0, utf8);
    if !NoStopFrom(p.parts, 0, utf8) {
      FirstStopExists(p.parts, 0, utf8);
    }
  }

  /**
   * An empty `text/plain` part ends the search: the text is "" even when a
   * `text/html` part follows it.
   */
  lemma EmptyPlainHidesHtml(p: Part, utf8: Utf8Decoder)
    requires DataOf(p) == "" && |p.parts| >= 2
    requires p.parts[0].mimeType == "text/plain" && DataOf(p.parts[0]) == ""
    requires p.parts[1].mimeType == "text/html" && DataOf(p.parts[1]) != ""
    ensures PartText(p, utf8) == ""
  {
    assert FirstStopAt(p.parts, 0, 0, utf8);
    PlainPassFirstStop(p, 0, utf8);
  }

  /** `get_body_text(payload)`: a missing payload has no text. */
  function GetBodyText(payload: Option<Part>, utf8: Utf8Decoder): (r: string)
    ensures payload.None? ==> r == ""
  {
    match payload
    case None => ""
    case Some(p) => PartText(p, utf8)
  }

  /** An empty payload, without data or parts, has no text either. */
  lemma EmptyPayloadText(utf8: Utf8Decoder)
    ensures GetBodyText(Some(Part("", "", None, None, [], [])), utf8) == ""
  {
  }
}
