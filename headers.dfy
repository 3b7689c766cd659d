/**
 * Header lookup and address extraction: `get_header` and
 * `parse_email_addresses`.
 */
module Headers {
  import opened Wrappers
  import opened Text

  /**
   * One entry of a payload's header list. A header dictionary without a
   * "name" or "value" key behaves exactly as if that field were "", so the
   * model stores both as strings.
   */
  datatype Header = Header(name: string, value: string)

  /** The case-insensitive name comparison `h["name"].lower() == name.lower()`. */
  predicate NameMatches(h: Header, name: string) {
    Lower(h.name) == Lower(name)
  }

  /**
   * `get_header`: the value of the first header whose name matches `name`
   * without regard to case, or "" when none does.
   */
  function GetHeader(headers: seq<Header>, name: string): (r: string)
    ensures (forall i :: 0 <= i < |headers| ==> !NameMatches(headers[i], name)) ==> r == ""
    ensures forall i :: 0 <= i < |headers| && NameMatches(headers[i], name) &&
                        (forall j :: 0 <= j < i ==> !NameMatches(headers[j], name))
                   ==> r == headers[i].value
  {
    if headers == [] then ""
    else if NameMatches(headers[0], name) then headers[0].value
    else
      var r := GetHeader(headers[1..], name);
      assert forall i :: 1 <= i < |headers| ==> headers[1..][i - 1] == headers[i];
      r
  }

  /** Names that agree up to case look up the same value. */
  lemma GetHeaderCaseInsensitive(headers: seq<Header>, a: string, b: string)
    requires Lower(a) == Lower(b)
    ensures GetHeader(headers, a) == GetHeader(headers, b)
  {
  }

  /** Headers after the first match cannot change the answer. */
  lemma GetHeaderFirstWins(front: seq<Header>, h: Header, back: seq<Header>, name: string)
    requires forall j :: 0 <= j < |front| ==> !NameMatches(front[j], name)
    requires NameMatches(h, name)
    ensures GetHeader(front + [h] + back, name) == h.value
  {
    var all := front + [h] + back;
    assert all[|front|] == h;
    assert forall j :: 0 <= j < |front| ==> all[j] == front[j];
  }

  // ---------------------------------------------------------------------------
  // Address extraction: `re.findall(r"[\w\.-]+@[\w\.-]+", value)`.

  /** The class `[\w.-]`, with `\w` read as ASCII letters, digits and `_`. */
  predicate IsAddrChar(c: char) {
    ('a' <= c <= 'z') || ('A' <= c <= 'Z') || ('0' <= c <= '9') || c == '_' || c == '.' || c == '-'
  }

  /** `s[i..j]` has the shape `X@Y`, with X and Y non-empty runs of `[\w.-]`. */
  ghost predicate IsAddressAt(s: string, i: int, j: int) {
    0 <= i < j <= |s| &&
    exists m :: i < m < j - 1 && s[m] == '@' && AllIn(s, i, m, IsAddrChar) && AllIn(s, m + 1, j, IsAddrChar)
  }

  ghost predicate IsAddress(t: string) {
    IsAddressAt(t, 0, |t|)
  }

  /** The end of the longest run of `[\w.-]` that starts at `i` (the greedy `+`). */
  function RunEnd(s: string, i: nat): (j: nat)
    requires i <= |s|
    ensures i <= j <= |s|
    ensures AllIn(s, i, j, IsAddrChar)
    ensures j < |s| ==> !IsAddrChar(s[j])
    decreases |s| - i
  {
    if i < |s| && IsAddrChar(s[i]) then RunEnd(s, i + 1) else i
  }

  /**
   * Where the pattern matches if it is tried at position `p`: the end of the
   * match, or `None`. Backtracking cannot help, because `@` is not in the class:
   * the first run must end exactly at an `@` and the second is taken whole.
   */
  function MatchAt(s: string, p: nat): (r: Option<nat>)
    requires p <= |s|
    ensures r.Some? ==> p < r.value && IsAddressAt(s, p, r.value)
    ensures r.Some? && r.value < |s| ==> !IsAddrChar(s[r.value])
  {
    if p < |s| && IsAddrChar(s[p]) then
      var m := RunEnd(s, p);
      if m + 1 < |s| && s[m] == '@' && IsAddrChar(s[m + 1]) then
        var e := RunEnd(s, m + 1);
        assert p < m < e - 1 && AllIn(s, p, m, IsAddrChar) && AllIn(s, m + 1, e, IsAddrChar);
        Some(e)
      else None
    else None
  }

  /** The spans `[start, end)` that `findall` reports when it scans from `p`. */
  function Spans(s: string, p: nat): (r: seq<(nat, nat)>)
    requires p <= |s|
    ensures forall k :: 0 <= k < |r| ==> p <= r[k].0 < r[k].1 <= |s|
    decreases |s| - p
  {
    if p == |s| then []
    else match MatchAt(s, p)
      case Some(e) => [(p, e)] + Spans(s, e)
      case None => Spans(s, p + 1)
  }

  // ---------------------------------------------------------------------------
  // What the scan finds.

  /** An `X@Y` occurrence at `i` means the pattern matches when tried at `i`. */
  lemma AddressMeansMatch(s: string, i: nat, j: nat)
    requires j <= |s| && IsAddressAt(s, i, j)
    ensures MatchAt(s, i).Some?
  {
    var m :| i < m < j - 1 && s[m] == '@' && AllIn(s, i, m, IsAddrChar) && AllIn(s, m + 1, j, IsAddrChar);
    assert RunEnd(s, i) == m;
    assert IsAddrChar(s[m + 1]);
  }

  /** Inside a run, trying one character later gives the same match (or none). */
  lemma MatchAtInRun(s: string, p: nat)
    requires p + 1 <= |s| && IsAddrChar(s[p])
    ensures p + 1 < |s| && IsAddrChar(s[p + 1]) ==> MatchAt(s, p + 1) == MatchAt(s, p)
    ensures MatchAt(s, p + 1).Some? ==> MatchAt(s, p) == MatchAt(s, p + 1)
  {
    assert RunEnd(s, p) == RunEnd(s, p + 1);
  }

  /** `s[i..j]` is an `X@Y` occurrence that cannot be extended to either side. */
  ghost predicate IsMaximalAddressAt(s: string, i: int, j: int) {
    IsAddressAt(s, i, j) &&
    (i > 0 ==> !IsAddrChar(s[i - 1])) &&
    (j < |s| ==> !IsAddrChar(s[j]))
  }

  ghost predicate AllMaximal(s: string, sp: seq<(nat, nat)>) {
    forall k :: 0 <= k < |sp| ==> IsMaximalAddressAt(s, sp[k].0, sp[k].1)
  }

  ghost predicate Ordered(sp: seq<(nat, nat)>) {
    forall k, l :: 0 <= k < l < |sp| ==> sp[k].1 <= sp[l].0
  }

  /** Every `X@Y` occurrence starting at or after `p` starts inside one of the spans. */
  ghost predicate Covers(s: string, sp: seq<(nat, nat)>, p: nat) {
    forall i, j :: p <= i && IsAddressAt(s, i, j) ==> exists k :: 0 <= k < |sp| && sp[k].0 <= i < sp[k].1
  }

  /** Every span the scan from `p` reports is an `X@Y` occurrence that cannot be extended to either side. */
  lemma {:induction false} SpansAreMaximalAddresses(s: string, p: nat)
    requires p <= |s|
    requires p > 0 && MatchAt(s, p).Some? ==> !IsAddrChar(s[p - 1])
    ensures AllMaximal(s, Spans(s, p))
    decreases |s| - p
  {
    if p < |s| {
      match MatchAt(s, p)
      case Some(e) =>
        SpansAreMaximalAddresses(s, e);
        assert IsMaximalAddressAt(s, p, e);
        AllMaximalCons(s, p, e, Spans(s, e));
      case None =>
        assert Spans(s, p) == Spans(s, p + 1);
        if p + 1 < |s| && MatchAt(s, p + 1).Some? && IsAddrChar(s[p]) {
          MatchAtInRun(s, p);
        }
        SpansAreMaximalAddresses(s, p + 1);
    }
  }

  lemma AllMaximalCons(s: string, p: nat, e: nat, tail: seq<(nat, nat)>)
    requires IsMaximalAddressAt(s, p, e) && AllMaximal(s, tail)
    ensures AllMaximal(s, [(p, e)] + tail)
  {
    var sp := [(p, e)] + tail;
    forall k | 0 <= k < |sp| ensures IsMaximalAddressAt(s, sp[k].0, sp[k].1) {
      if k > 0 {
        assert sp[k] == tail[k - 1];
      }
    }
  }

  /** The spans come left to right and do not overlap. */
  lemma {:induction false} SpansOrdered(s: string, p: nat)
    requires p <= |s|
    ensures Ordered(Spans(s, p))
    decreases |s| - p
  {
    if p < |s| {
      match MatchAt(s, p)
      case Some(e) =>
        SpansOrdered(s, e);
        OrderedCons(p, e, Spans(s, e));
      case None =>
        assert Spans(s, p) == Spans(s, p + 1);
        SpansOrdered(s, p + 1);
    }
  }

  lemma OrderedCons(p: nat, e: nat, tail: seq<(nat, nat)>)
    requires Ordered(tail) && forall k :: 0 <= k < |tail| ==> e <= tail[k].0
    ensures Ordered([(p, e)] + tail)
  {
    var sp := [(p, e)] + tail;
    forall k, l | 0 <= k < l < |sp| ensures sp[k].1 <= sp[l].0 {
      assert sp[l] == tail[l - 1];
      if k > 0 {
        assert sp[k] == tail[k - 1];
      }
    }
  }

  /** No `X@Y` occurrence is missed: each one starting at or after `p` starts inside a reported span. */
  lemma {:induction false} SpansComplete(s: string, p: nat)
    requires p <= |s|
    ensures Covers(s, Spans(s, p), p)
    decreases |s| - p
  {
    if p < |s| {
      match MatchAt(s, p)
      case Some(e) =>
        SpansComplete(s, e);
        CoversAfterMatch(s, p, e);
      case None =>
        SpansComplete(s, p + 1);
        CoversAfterMiss(s, p);
    }
  }

  /** A match `[p, e)` covers the occurrences starting inside it; the scan from `e` covers the rest. */
  lemma CoversAfterMatch(s: string, p: nat, e: nat)
    requires p < |s| && MatchAt(s, p) == Some(e) && e <= |s|
    requires Covers(s, Spans(s, e), e)
    ensures Covers(s, Spans(s, p), p)
  {
    var sp, tail := Spans(s, p), Spans(s, e);
    assert sp == [(p, e)] + tail;
    forall i, j | p <= i && IsAddressAt(s, i, j)
      ensures exists k :: 0 <= k < |sp| && sp[k].0 <= i < sp[k].1
    {
      if i < e {
        assert sp[0].0 <= i < sp[0].1;
      } else {
        var k :| 0 <= k < |tail| && tail[k].0 <= i < tail[k].1;
        assert sp[k + 1] == tail[k];
      }
    }
  }

  /** No match at `p` means no occurrence starts at `p`, so the scan from `p + 1` covers everything. */
  lemma CoversAfterMiss(s: string, p: nat)
    requires p < |s| && MatchAt(s, p).None?
    requires Covers(s, Spans(s, p + 1), p + 1)
    ensures Covers(s, Spans(s, p), p)
  {
    assert Spans(s, p) == Spans(s, p + 1);
    OccurrencesMatch(s, p);
  }

  lemma OccurrencesMatch(s: string, p: nat)
    requires p <= |s|
    ensures forall j :: IsAddressAt(s, p, j) ==> MatchAt(s, p).Some?
  {
    forall j | IsAddressAt(s, p, j) ensures MatchAt(s, p).Some? {
      AddressMeansMatch(s, p, j);
    }
  }

  /**
   * `parse_email_addresses`: the substrings the scan reports, in order. Each
   * is an `X@Y` occurrence that cannot be extended to either side, they
   * appear left to right without overlapping, and every `X@Y` occurrence of
   * the input starts inside one of them.
   */
  function ParseEmailAddresses(value: string): (r: seq<string>)
    ensures value == "" ==> r == []
    ensures |r| == |Spans(value, 0)|
    ensures forall k :: 0 <= k < |r| ==> r[k] == value[Spans(value, 0)[k].0..Spans(value, 0)[k].1]
    ensures forall k :: 0 <= k < |r| ==> IsAddress(r[k])
    ensures AllMaximal(value, Spans(value, 0))
    ensures Ordered(Spans(value, 0))
    ensures Covers(value, Spans(value, 0), 0)
  {
    SpansAreMaximalAddresses(value, 0);
    SpansOrdered(value, 0);
    SpansComplete(value, 0);
    var r := if value == "" then [] else Substrings(value, Spans(value, 0));
    SubstringsAreAddresses(value, Spans(value, 0));
    r
  }

  /** The substrings of `s` that the spans delimit. */
  function Substrings(s: string, sp: seq<(nat, nat)>): (r: seq<string>)
    requires forall k :: 0 <= k < |sp| ==> sp[k].0 <= sp[k].1 <= |s|
    ensures |r| == |sp| && forall k :: 0 <= k < |sp| ==> r[k] == s[sp[k].0..sp[k].1]
  {
    seq(|sp|, k requires 0 <= k < |sp| => s[sp[k].0..sp[k].1])
  }

  lemma SubstringsAreAddresses(s: string, sp: seq<(nat, nat)>)
    requires AllMaximal(s, sp)
    ensures forall k :: 0 <= k < |sp| ==> IsAddress(s[sp[k].0..sp[k].1])
  {
    forall k | 0 <= k < |sp| ensures IsAddress(s[sp[k].0..sp[k].1]) {
      assert IsMaximalAddressAt(s, sp[k].0, sp[k].1);
      SubstringIsAddress(s, sp[k].0, sp[k].1);
    }
  }

  /** An `X@Y` occurrence, cut out of its text, is an address on its own. */
  lemma SubstringIsAddress(s: string, a: int, b: int)
    requires IsAddressAt(s, a, b)
    ensures IsAddress(s[a..b])
  {
    var m :| a < m < b - 1 && s[m] == '@' && AllIn(s, a, m, IsAddrChar) && AllIn(s, m + 1, b, IsAddrChar);
    var t := s[a..b];
    assert t[m - a] == '@';
    assert AllIn(t, 0, m - a, IsAddrChar) by {
      forall q | 0 <= q < m - a ensures IsAddrChar(t[q]) { assert t[q] == s[a + q]; }
    }
    assert AllIn(t, m - a + 1, |t|, IsAddrChar) by {
      forall q | m - a + 1 <= q < |t| ensures IsAddrChar(t[q]) { assert t[q] == s[a + q]; }
    }
  }

  /** Text without an `@` holds no address. */
  lemma NoAtNoAddresses(value: string)
    requires forall i :: 0 <= i < |value| ==> value[i] != '@'
    ensures ParseEmailAddresses(value) == []
  {
    var sp := Spans(value, 0);
    var r := ParseEmailAddresses(value);
    assert |sp| > 0 ==> IsMaximalAddressAt(value, sp[0].0, sp[0].1);
  }

  /** A header value that is one bare address, `X@Y` and nothing else, parses to itself. */
  lemma SingleAddress(value: string)
    requires IsAddress(value)
    ensures ParseEmailAddresses(value) == [value]
  {
    var m :| 0 < m < |value| - 1 && value[m] == '@' && AllIn(value, 0, m, IsAddrChar) && AllIn(value, m + 1, |value|, IsAddrChar);
    assert RunEnd(value, 0) == m;
    assert RunEnd(value, m + 1) == |value|;
    assert Spans(value, 0) == [(0, |value|)] + Spans(value, |value|);
    assert value[0..|value|] == value;
  }
}
