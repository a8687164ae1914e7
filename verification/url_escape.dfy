/**
 The bracket rewrite applied to every resolved image URL: `strtr` with the
 URL_REPLACEMENTS table, which percent-encodes `[` and `]` because the media
 service leaves them unencoded in generated file names.
 */
module UrlEscape {

  /** URL_REPLACEMENTS: each bracket and its percent-encoded form. */
  const UrlReplacements: map<char, string> := map['[' := "%5B", ']' := "%5D"]

  predicate IsBracket(c: char) {
    c == '[' || c == ']'
  }

  predicate NoBrackets(s: string) {
    '[' !in s && ']' !in s
  }

  /** The number of bracket characters in `s`. */
  function BracketCount(s: string): nat {
    if |s| == 0 then 0 else (if IsBracket(s[0]) then 1 else 0) + BracketCount(s[1..])
  }

  /** What one character becomes: its table entry, or itself when it has none. */
  function Replacement(c: char): string {
    if c in UrlReplacements then UrlReplacements[c] else [c]
  }

  /**
   `strtr(s, URL_REPLACEMENTS)`. Every key of the table is a single
   character, so strtr's longest-match-first scan amounts to replacing each
   character of `s` on its own, left to right, never rescanning text it has
   already produced.
   */
  function Escape(s: string): (r: string)
    ensures NoBrackets(r)
    ensures |r| == |s| + 2 * BracketCount(s)
    ensures NoBrackets(s) ==> r == s
  {
    if |s| == 0 then ""
    else
      assert s == [s[0]] + s[1..];
      Replacement(s[0]) + Escape(s[1..])
  }

  /** True when `t` begins with one of the two encoded brackets, `%5B` or `%5D`. */
  predicate StartsEncoded(t: string) {
    |t| >= 3 && t[0] == '%' && t[1] == '5' && (t[2] == 'B' || t[2] == 'D')
  }

  /** True when no suffix of `s` begins with an encoded bracket. */
  predicate NoEncodedBracket(s: string) {
    |s| == 0 || (!StartsEncoded(s) && NoEncodedBracket(s[1..]))
  }

  /** Percent-decoding of the two encoded brackets, left to right: the inverse of `Escape`. */
  function Unescape(t: string): (r: string)
    ensures |r| <= |t|
    ensures |t| == 0 <==> |r| == 0
  {
    if |t| == 0 then ""
    else if StartsEncoded(t) then (if t[2] == 'B' then "[" else "]") + Unescape(t[3..])
    else [t[0]] + Unescape(t[1..])
  }

  /** Escaping distributes over concatenation: each character is rewritten in place, in order. */
  lemma {:induction false} EscapeAppend(a: string, b: string)
    ensures Escape(a + b) == Escape(a) + Escape(b)
    decreases |a|
  {
    if |a| == 0 {
      assert a + b == b;
    } else {
      assert (a + b)[1..] == a[1..] + b;
      assert (a + b)[0] == a[0];
      EscapeAppend(a[1..], b);
    }
  }

  /** Applying the rewrite a second time changes nothing. */
  lemma EscapeIdempotent(s: string)
    ensures Escape(Escape(s)) == Escape(s)
  {
  }

  /** The first character of an escaped non-empty string: `%` for a bracket, else the character itself. */
  lemma EscapeHead(s: string)
    requires |s| > 0
    ensures |Escape(s)| > 0
    ensures Escape(s)[0] == (if IsBracket(s[0]) then '%' else s[0])
  {
    assert Escape(s) == Replacement(s[0]) + Escape(s[1..]);
  }

  /** A character without a table entry is copied unchanged to the front of the result. */
  lemma EscapeCons(s: string)
    requires |s| > 0 && !IsBracket(s[0])
    ensures Escape(s) == [s[0]] + Escape(s[1..])
  {
  }

  /** An escaped string whose source starts with neither a bracket nor an encoded bracket does not start encoded either. */
  lemma EscapeNotEncoded(s: string)
    requires |s| > 0 && !IsBracket(s[0]) && !StartsEncoded(s)
    ensures !StartsEncoded(Escape(s))
  {
    EscapeCons(s);
    if s[0] == '%' && |s| >= 2 {
      EscapeHead(s[1..]);
      if s[1] == '5' && |s| >= 3 {
        EscapeCons(s[1..]);
        assert s[1..][1..] == s[2..];
        EscapeHead(s[2..]);
        assert Escape(s)[2] == Escape(s[2..])[0];
      }
    }
  }

  /**
   Decoding the escaped URL gives back the original, provided the original
   did not already contain a literal `%5B` or `%5D` (which decoding could not
   tell apart from an escaped bracket).
   */
  lemma {:induction false} UnescapeEscape(s: string)
    requires NoEncodedBracket(s)
    ensures Unescape(Escape(s)) == s
    decreases |s|
  {
    if |s| > 0 {
      var c, rest := s[0], s[1..];
      var e := Escape(rest);
      assert s == [c] + rest;
      assert Escape(s) == Replacement(c) + e;
      UnescapeEscape(rest);
      if c == '[' {
        assert Escape(s) == "%5B" + e;
        assert Escape(s)[3..] == e;
      } else if c == ']' {
        assert Escape(s) == "%5D" + e;
        assert Escape(s)[3..] == e;
      } else {
        assert Escape(s) == [c] + e;
        EscapeNotEncoded(s);
        assert Escape(s)[1..] == e;
      }
    }
  }
}
