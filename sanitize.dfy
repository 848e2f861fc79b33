/** sanitizeInput: HTML escaping of user-provided entry names before they are written into
    the list view and the winner dialog as markup. */
module Sanitize {

  /** The five characters that are significant in HTML text and attribute values. */
  predicate IsSpecial(c: char) {
    c == '&' || c == '<' || c == '>' || c == '"' || c == '\''
  }

  /** No character in s can open a tag or close an attribute value. */
  predicate NoMarkup(s: string) {
    forall i :: 0 <= i < |s| ==> s[i] != '<' && s[i] != '>' && s[i] != '"' && s[i] != '\''
  }

  /** The replacement sanitizeInput uses for one character: a fixed entity for each of the
      five special characters, the character itself otherwise. */
  function EscapeChar(c: char): (e: string)
    ensures NoMarkup(e)
    ensures IsSpecial(c) ==> |e| >= 4 && e[0] == '&' && e[|e| - 1] == ';'
    ensures !IsSpecial(c) ==> e == [c]
  {
    match c
    case '&' => "&amp;"
    case '<' => "&lt;"
    case '>' => "&gt;"
    case '"' => "&quot;"
    case '\'' => "&#x27;"
    case _ => [c]
  }

  /** sanitizeInput: every character replaced by its EscapeChar, left to right. The output
      holds none of the four markup characters, and text without special characters is
      returned unchanged. */
  function Escape(s: string): (r: string)
    ensures |r| >= |s|
    ensures NoMarkup(r)
    ensures (forall i :: 0 <= i < |s| ==> !IsSpecial(s[i])) ==> r == s
  {
    if s == [] then []
    else
      var head, tail := EscapeChar(s[0]), Escape(s[1..]);
      assert NoMarkup(head + tail) by {
        forall i | 0 <= i < |head + tail|
          ensures (head + tail)[i] != '<' && (head + tail)[i] != '>'
          ensures (head + tail)[i] != '"' && (head + tail)[i] != '\''
        {
          if i < |head| { assert (head + tail)[i] == head[i]; }
          else { assert (head + tail)[i] == tail[i - |head|]; }
        }
      }
      head + tail
  }

  /** Decoding of exactly the five entities Escape emits (any other text is copied as it is):
      the inverse of Escape. */
  function Unescape(s: string): (r: string)
    decreases |s|
  {
    if s == [] then []
    else if "&amp;" <= s then "&" + Unescape(s[5..])
    else if "&lt;" <= s then "<" + Unescape(s[4..])
    else if "&gt;" <= s then ">" + Unescape(s[4..])
    else if "&quot;" <= s then "\"" + Unescape(s[6..])
    else if "&#x27;" <= s then "'" + Unescape(s[6..])
    else [s[0]] + Unescape(s[1..])
  }

  /** Decoding a character's replacement, whatever follows it, gives back that character. */
  lemma UnescapeEscapeChar(c: char, t: string)
    ensures Unescape(EscapeChar(c) + t) == [c] + Unescape(t)
  {
    if IsSpecial(c) {
      UnescapeEntity(c, t);
    } else {
      var s := EscapeChar(c) + t;
      assert s[0] == c && s[1..] == t;
    }
  }

  /** Each of the five entities is decoded by its own branch of Unescape. */
  lemma UnescapeEntity(c: char, t: string)
    requires IsSpecial(c)
    ensures Unescape(EscapeChar(c) + t) == [c] + Unescape(t)
  {
    var s := EscapeChar(c) + t;
    if c == '&' {
      assert "&amp;" <= s && s[5..] == t;
    } else if c == '<' {
      assert "&lt;" <= s && s[4..] == t;
      assert !("&amp;" <= s) by { assert s[1] == 'l'; }
    } else if c == '>' {
      assert "&gt;" <= s && s[4..] == t;
      assert !("&amp;" <= s) by { assert s[1] == 'g'; }
      assert !("&lt;" <= s) by { assert s[1] == 'g'; }
    } else if c == '"' {
      assert "&quot;" <= s && s[6..] == t;
      assert !("&amp;" <= s) && !("&lt;" <= s) && !("&gt;" <= s) by { assert s[1] == 'q'; }
    } else {
      assert "&#x27;" <= s && s[6..] == t;
      assert !("&amp;" <= s) && !("&lt;" <= s) && !("&gt;" <= s) && !("&quot;" <= s) by { assert s[1] == '#'; }
    }
  }

  /** Round trip: decoding the five entities that Escape emits gives back exactly the input. */
  lemma {:induction false} EscapeRoundTrip(s: string)
    ensures Unescape(Escape(s)) == s
  {
    if s != [] {
      UnescapeEscapeChar(s[0], Escape(s[1..]));
      EscapeRoundTrip(s[1..]);
    }
  }

  /** Two different names never escape to the same markup. */
  lemma EscapeInjective(s: string, t: string)
    requires Escape(s) == Escape(t)
    ensures s == t
  {
    EscapeRoundTrip(s);
    EscapeRoundTrip(t);
  }

  /** Escaping works character by character: it distributes over concatenation. */
  lemma {:induction false} EscapeAppend(a: string, b: string)
    ensures Escape(a + b) == Escape(a) + Escape(b)
  {
    if a != [] {
      ConsAppend(a, b);
      EscapeAppend(a[1..], b);
      AppendAssoc(EscapeChar(a[0]), Escape(a[1..]), Escape(b));
    } else {
      assert a + b == b;
    }
  }

  /** Head and tail of a concatenation with a non-empty first part. */
  lemma ConsAppend(a: string, b: string)
    requires a != []
    ensures (a + b)[0] == a[0] && (a + b)[1..] == a[1..] + b
  {
  }

  /** Concatenation is associative. */
  lemma AppendAssoc(x: string, y: string, z: string)
    ensures x + (y + z) == (x + y) + z
  {
  }

  /** Each input character is replaced, in place and in order, by its own replacement:
      the output is the escaped text before position i, then EscapeChar(s[i]), then the
      escaped text after it. */
  lemma {:induction false} EscapeAt(s: string, i: nat)
    requires i < |s|
    ensures Escape(s) == Escape(s[..i]) + EscapeChar(s[i]) + Escape(s[i + 1..])
  {
    var pre, rest := s[..i], s[i..];
    assert s == pre + rest;
    EscapeAppend(pre, rest);
    assert rest != [] && rest[0] == s[i] && rest[1..] == s[i + 1..];
    assert Escape(rest) == EscapeChar(s[i]) + Escape(s[i + 1..]);
  }
}
