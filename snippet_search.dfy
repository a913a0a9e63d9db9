/**
 The snippet collector of `google_search`: the descriptions of the first five
 results of the first page are appended one by one to a list, joined with no
 separator, and the joined text is encoded as ASCII with the `'replace'`
 error handler, so that every character outside ASCII becomes one `?` byte.
 The search itself is a network call: the descriptions of the results on
 its first page, in page order, are a parameter here.
 */
module SnippetSearch {

  /** An encoded byte. */
  newtype Byte = x: int | 0 <= x < 256

  /** How many descriptions the loop collects. */
  const TopCount: nat := 5

  /** The byte `encode('ascii', 'replace')` writes for a character it cannot
      encode. */
  const Replacement: Byte := 63

  predicate IsAsciiChar(c: char)
  {
    c as int < 128
  }

  predicate IsAsciiBytes(b: seq<Byte>)
  {
    forall k :: 0 <= k < |b| ==> b[k] < 128
  }

  /** The lengths of all parts added up. */
  ghost function TotalLength(parts: seq<string>): (n: nat)
  {
    if |parts| == 0 then 0 else |parts[0]| + TotalLength(parts[1..])
  }

  /** `''.join(parts)`: the parts one after the other, no separator. */
  function Concat(parts: seq<string>): (r: string)
    ensures |r| == TotalLength(parts)
  {
    if |parts| == 0 then "" else parts[0] + Concat(parts[1..])
  }

  /** `text.encode('ascii', 'replace')`: one byte per character; an ASCII
      character becomes its own code, any other character a `?`. */
  function EncodeAsciiReplace(text: string): (b: seq<Byte>)
    ensures |b| == |text|
    ensures forall k :: 0 <= k < |text| && IsAsciiChar(text[k]) ==> b[k] as int == text[k] as int
    ensures forall k :: 0 <= k < |text| && !IsAsciiChar(text[k]) ==> b[k] == Replacement
  {
    if |text| == 0 then []
    else
      var c := text[0];
      [if IsAsciiChar(c) then c as int as Byte else Replacement] + EncodeAsciiReplace(text[1..])
  }

  /** Reads ASCII bytes back as text. */
  ghost function DecodeAscii(b: seq<Byte>): (text: string)
    requires IsAsciiBytes(b)
    ensures |text| == |b|
    ensures forall k :: 0 <= k < |b| ==> text[k] as int == b[k] as int
  {
    if |b| == 0 then "" else [b[0] as int as char] + DecodeAscii(b[1..])
  }

  /** What `google_search` returns, given the descriptions of the results on
      the first page in page order. */
  function SearchText(descriptions: seq<string>): (r: seq<Byte>)
    requires |descriptions| >= TopCount
    ensures |r| == TotalLength(descriptions[..TopCount])
    ensures IsAsciiBytes(r)
  {
    EncodeAsciiReplace(Concat(descriptions[..TopCount]))
  }

  /** The loop and the join/encode of `google_search`.  A page of fewer than
      five results makes `first_page[i]` fail, so the caller must supply
      five. */
  method GoogleSearch(descriptions: seq<string>) returns (firstSearch: seq<Byte>)
    requires |descriptions| >= TopCount
    ensures firstSearch == SearchText(descriptions)
    ensures IsAsciiBytes(firstSearch)
  {
    var topThreeResult: seq<string> := [];
    var i := 0;
    while i < TopCount
      invariant i <= TopCount
      invariant topThreeResult == descriptions[..i]
    {
      topThreeResult := topThreeResult + [descriptions[i]];
      i := i + 1;
    }
    var joined := Concat(topThreeResult);
    firstSearch := EncodeAsciiReplace(joined);
    EncodedIsAscii(joined);
  }

  // ---------------------------------------------------------------------
  // Lemmas
  // ---------------------------------------------------------------------

  /** Joining two lists is joining each and concatenating. */
  lemma {:induction false} ConcatAppend(a: seq<string>, b: seq<string>)
    ensures Concat(a + b) == Concat(a) + Concat(b)
    decreases |a|
  {
    if |a| == 0 {
      assert a + b == b;
    } else {
      assert (a + b)[1..] == a[1..] + b;
      ConcatAppend(a[1..], b);
    }
  }

  /** Encoding character by character commutes with concatenation. */
  lemma EncodeAppend(s: string, t: string)
    ensures EncodeAsciiReplace(s + t) == EncodeAsciiReplace(s) + EncodeAsciiReplace(t)
  {
  }

  /** Every byte of the encoded text is ASCII. */
  lemma EncodedIsAscii(text: string)
    ensures IsAsciiBytes(EncodeAsciiReplace(text))
  {
  }

  /** ASCII text survives the encoding unchanged: decoding gives it back. */
  lemma AsciiRoundTrip(text: string)
    requires forall k :: 0 <= k < |text| ==> IsAsciiChar(text[k])
    ensures IsAsciiBytes(EncodeAsciiReplace(text))
    ensures DecodeAscii(EncodeAsciiReplace(text)) == text
  {
  }

  /** Decoding the result shows the joined text with every non-ASCII
      character turned into `?`, one for one. */
  lemma DecodeShowsReplacements(text: string)
    ensures IsAsciiBytes(EncodeAsciiReplace(text))
    ensures var d := DecodeAscii(EncodeAsciiReplace(text));
      |d| == |text| &&
      forall k :: 0 <= k < |text| ==> d[k] == if IsAsciiChar(text[k]) then text[k] else '?'
  {
  }

  /** The result is the five descriptions, in order, joined with no
      separator and then encoded; its length is their total length. */
  lemma SearchTextIsFiveDescriptions(descriptions: seq<string>)
    requires |descriptions| >= TopCount
    ensures SearchText(descriptions) == EncodeAsciiReplace(
      descriptions[0] + descriptions[1] + descriptions[2] + descriptions[3] + descriptions[4])
    ensures |SearchText(descriptions)| ==
      |descriptions[0]| + |descriptions[1]| + |descriptions[2]| + |descriptions[3]| + |descriptions[4]|
  {
    var d0, d1, d2, d3, d4 := descriptions[0], descriptions[1], descriptions[2], descriptions[3], descriptions[4];
    var ds := descriptions[..TopCount];
    assert ds == [d0, d1, d2, d3, d4];
    calc {
      Concat(ds);
      { assert ds[1..] == [d1, d2, d3, d4]; }
      d0 + Concat([d1, d2, d3, d4]);
      { assert [d1, d2, d3, d4][1..] == [d2, d3, d4]; }
      d0 + (d1 + Concat([d2, d3, d4]));
      { assert [d2, d3, d4][1..] == [d3, d4]; }
      d0 + (d1 + (d2 + Concat([d3, d4])));
      { assert [d3, d4][1..] == [d4]; }
      d0 + (d1 + (d2 + (d3 + Concat([d4]))));
      { assert [d4][1..] == []; }
      d0 + (d1 + (d2 + (d3 + (d4 + ""))));
      { assert d4 + "" == d4; }
      d0 + d1 + d2 + d3 + d4;
    }
  }

  /** Results after the fifth have no effect on the returned text. */
  lemma LaterResultsIgnored(descriptions: seq<string>, more: seq<string>)
    requires |descriptions| >= TopCount
    ensures SearchText(descriptions + more) == SearchText(descriptions)
  {
    assert (descriptions + more)[..TopCount] == descriptions[..TopCount];
  }
}
