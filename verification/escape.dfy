/** The two escaping helpers used when building the standings and league-editor markup
    (`escapeHtml`, `escapeAttr`), and the character-reference decoding an HTML parser
    applies when it reads the markup back. */
module Escape {
  import opened Text

  /** `escapeHtml` on one character. */
  function EscapeHtmlChar(c: char): string {
    if c == '&' then "&amp;" else if c == '<' then "&lt;" else if c == '>' then "&gt;" else [c]
  }

  /** `escapeHtml(s)`: '&', '<' and '>' replaced by their character references. */
  function EscapeHtml(s: string): (r: string)
    ensures |r| >= |s|
    ensures forall i :: 0 <= i < |r| ==> r[i] != '<' && r[i] != '>'
  {
    if s == [] then [] else EscapeHtmlChar(s[0]) + EscapeHtml(s[1..])
  }

  /** `escapeAttr(s)`: every '"' replaced by "&quot;"; nothing else is touched. */
  function EscapeAttr(s: string): (r: string)
    ensures |r| >= |s|
    ensures forall i :: 0 <= i < |r| ==> r[i] != '"'
    ensures (forall i :: 0 <= i < |s| ==> s[i] != '"') ==> r == s
  {
    if s == [] then [] else (if s[0] == '"' then "&quot;" else [s[0]]) + EscapeAttr(s[1..])
  }

  /** Character-reference decoding of text and attribute values, for the four
      references these helpers produce; any other character is read literally. */
  function Decode(s: string): string {
    if s == [] then []
    else if StartsWith(s, "&amp;") then "&" + Decode(s[5..])
    else if StartsWith(s, "&lt;") then "<" + Decode(s[4..])
    else if StartsWith(s, "&gt;") then ">" + Decode(s[4..])
    else if StartsWith(s, "&quot;") then "\"" + Decode(s[6..])
    else [s[0]] + Decode(s[1..])
  }

  /** A reference followed by more text decodes to its character and the decoded rest. */
  lemma DecodeReference(entity: string, c: char, rest: string)
    requires (entity, c) in {("&amp;", '&'), ("&lt;", '<'), ("&gt;", '>'), ("&quot;", '"')}
    ensures Decode(entity + rest) == [c] + Decode(rest)
  {
    var s := entity + rest;
    assert s[..|entity|] == entity;
    assert s[|entity|..] == rest;
    assert s[0] == '&' && s[1] == entity[1];
    if entity != "&amp;" {
      assert entity[1] != 'a' && !StartsWith(s, "&amp;");
      if entity != "&lt;" {
        assert entity[1] != 'l' && !StartsWith(s, "&lt;");
        if entity != "&gt;" {
          assert entity[1] != 'g' && !StartsWith(s, "&gt;");
        }
      }
    }
  }

  /** A character other than '&' decodes to itself. */
  lemma DecodeLiteral(c: char, rest: string)
    requires c != '&'
    ensures Decode([c] + rest) == [c] + Decode(rest)
  {
    var s := [c] + rest;
    assert s[1..] == rest;
    assert s[0] == c;
    assert !StartsWith(s, "&amp;") && !StartsWith(s, "&lt;") && !StartsWith(s, "&gt;") && !StartsWith(s, "&quot;");
  }

  /** Text escaped with `escapeHtml` reads back as the original text. */
  lemma {:induction false} EscapeHtmlRoundTrip(s: string)
    ensures Decode(EscapeHtml(s)) == s
  {
    if s != [] {
      EscapeHtmlRoundTrip(s[1..]);
      var rest := EscapeHtml(s[1..]);
      var c := s[0];
      if c == '&' {
        DecodeReference("&amp;", '&', rest);
      } else if c == '<' {
        DecodeReference("&lt;", '<', rest);
      } else if c == '>' {
        DecodeReference("&gt;", '>', rest);
      } else {
        DecodeLiteral(c, rest);
      }
      assert [c] + s[1..] == s;
    }
  }

  /** An attribute value without '&' escaped with `escapeAttr` reads back as the
      original value. */
  lemma {:induction false} EscapeAttrRoundTripWithoutAmpersand(s: string)
    requires forall i :: 0 <= i < |s| ==> s[i] != '&'
    ensures Decode(EscapeAttr(s)) == s
  {
    if s != [] {
      EscapeAttrRoundTripWithoutAmpersand(s[1..]);
      var rest := EscapeAttr(s[1..]);
      if s[0] == '"' {
        DecodeReference("&quot;", '"', rest);
      } else {
        DecodeLiteral(s[0], rest);
      }
      assert [s[0]] + s[1..] == s;
    }
  }

  /** `escapeAttr` leaves '&' alone, so a value that contains a character reference is
      read back with the reference decoded: "&amp;" comes back as "&". */
  lemma EscapeAttrLosesReferences()
    ensures EscapeAttr("&amp;") == "&amp;"
    ensures Decode(EscapeAttr("&amp;")) == "&"
  {
    assert "&amp;"[..5] == "&amp;";
  }

  /** `escapeAttr` as evidently intended: '&' escaped as well as '"'. */
  function EscapeAttrSafe(s: string): (r: string)
    ensures |r| >= |s|
    ensures forall i :: 0 <= i < |r| ==> r[i] != '"'
  {
    if s == [] then []
    else (if s[0] == '"' then "&quot;" else if s[0] == '&' then "&amp;" else [s[0]]) + EscapeAttrSafe(s[1..])
  }

  /** Every value escaped with the corrected helper reads back as the original value. */
  lemma {:induction false} EscapeAttrSafeRoundTrip(s: string)
    ensures Decode(EscapeAttrSafe(s)) == s
  {
    if s != [] {
      EscapeAttrSafeRoundTrip(s[1..]);
      var rest := EscapeAttrSafe(s[1..]);
      if s[0] == '"' {
        DecodeReference("&quot;", '"', rest);
      } else if s[0] == '&' {
        DecodeReference("&amp;", '&', rest);
      } else {
        DecodeLiteral(s[0], rest);
      }
      assert [s[0]] + s[1..] == s;
    }
  }
}
