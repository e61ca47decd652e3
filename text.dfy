/**
 * The two Go standard-library string functions that record normalisation
 * relies on: strings.TrimSpace and html.EscapeString, with the facts about
 * them that the stored fields inherit.
 */
module Text {

  /**
   * unicode.IsSpace: a Latin-1 character is one of the eight cases of its
   * switch; any other is looked up in Unicode's White_Space table, whose
   * entries above Latin-1 are written here as ranges. On ASCII it agrees with
   * the table strings.TrimSpace consults first: tab, newline, vertical tab,
   * form feed, carriage return and space.
   */
  predicate IsSpace(c: char)
    ensures c < '\U{0080}' ==>
      (IsSpace(c) <==> c == '\t' || c == '\n' || c == '\U{000B}' || c == '\U{000C}' || c == '\r' || c == ' ')
  {
    if c <= '\U{00FF}' then
      || c == '\t' || c == '\n' || c == '\U{000B}' || c == '\U{000C}' || c == '\r' || c == ' '
      || c == '\U{0085}' || c == '\U{00A0}'
    else
      || c == '\U{1680}' || '\U{2000}' <= c <= '\U{200A}' || c == '\U{2028}' || c == '\U{2029}'
      || c == '\U{202F}' || c == '\U{205F}' || c == '\U{3000}'
  }

  /** A string made of whitespace only; the empty string is blank. */
  predicate Blank(s: string)
  {
    forall i :: 0 <= i < |s| ==> IsSpace(s[i])
  }

  /** Neither end of the string is whitespace. */
  predicate Trimmed(s: string)
  {
    s != [] ==> !IsSpace(s[0]) && !IsSpace(s[|s| - 1])
  }

  /**
   * The first index at or after i that holds no whitespace, or |s| when
   * there is none: where strings.TrimSpace starts the part it keeps.
   */
  function SkipSpace(s: string, i: nat): (k: nat)
    requires i <= |s|
    ensures i <= k <= |s|
    ensures k < |s| ==> !IsSpace(s[k])
    decreases |s| - i
  {
    if i < |s| && IsSpace(s[i]) then SkipSpace(s, i + 1) else i
  }

  /**
   * Going back from j but not below lo, the index just past the last
   * character that is not whitespace: where strings.TrimSpace stops.
   */
  function BackSkipSpace(s: string, lo: nat, j: nat): (k: nat)
    requires lo <= j <= |s|
    ensures lo <= k <= j
    ensures lo < k ==> !IsSpace(s[k - 1])
    decreases j
  {
    if lo < j && IsSpace(s[j - 1]) then BackSkipSpace(s, lo, j - 1) else j
  }

  /** Everything SkipSpace passes over is whitespace. */
  lemma {:induction false} SkipSpaceOnlySpace(s: string, i: nat)
    requires i <= |s|
    ensures forall m :: i <= m < SkipSpace(s, i) ==> IsSpace(s[m])
    decreases |s| - i
  {
    if i < |s| && IsSpace(s[i]) {
      SkipSpaceOnlySpace(s, i + 1);
    }
  }

  /** Everything BackSkipSpace passes over is whitespace. */
  lemma {:induction false} BackSkipSpaceOnlySpace(s: string, lo: nat, j: nat)
    requires lo <= j <= |s|
    ensures forall m :: BackSkipSpace(s, lo, j) <= m < j ==> IsSpace(s[m])
    decreases j
  {
    if lo < j && IsSpace(s[j - 1]) {
      BackSkipSpaceOnlySpace(s, lo, j - 1);
    }
  }

  /** strings.TrimSpace: the part of s between its leading and its trailing whitespace. */
  function TrimSpace(s: string): (r: string)
    ensures |r| <= |s|
    ensures Trimmed(r)
  {
    var start := SkipSpace(s, 0);
    s[start..BackSkipSpace(s, start, |s|)]
  }

  /** TrimSpace leaves nothing exactly when the input is blank. */
  lemma TrimSpaceEmptyIffBlank(s: string)
    ensures TrimSpace(s) == [] <==> Blank(s)
  {
    var start := SkipSpace(s, 0);
    SkipSpaceOnlySpace(s, 0);
    BackSkipSpaceOnlySpace(s, start, |s|);
  }

  /** TrimSpace keeps a contiguous part of s and removes only whitespace around it. */
  lemma TrimSpaceRemovesOnlySpace(s: string)
    ensures var k := SkipSpace(s, 0);
      && k + |TrimSpace(s)| <= |s|
      && TrimSpace(s) == s[k..k + |TrimSpace(s)|]
      && (forall i :: 0 <= i < k ==> IsSpace(s[i]))
      && (forall i :: k + |TrimSpace(s)| <= i < |s| ==> IsSpace(s[i]))
  {
    var start := SkipSpace(s, 0);
    SkipSpaceOnlySpace(s, 0);
    BackSkipSpaceOnlySpace(s, start, |s|);
  }

  /** A trimmed string is its own TrimSpace. */
  lemma TrimSpaceOfTrimmed(s: string)
    requires Trimmed(s)
    ensures TrimSpace(s) == s
  {
  }

  /** SkipSpace stops at the first non-whitespace index: any index with that property is its result. */
  lemma {:induction false} SkipSpaceAt(s: string, i: nat, k: nat)
    requires i <= k <= |s|
    requires forall m :: i <= m < k ==> IsSpace(s[m])
    requires k < |s| ==> !IsSpace(s[k])
    ensures SkipSpace(s, i) == k
    decreases k - i
  {
    if i < k {
      SkipSpaceAt(s, i + 1, k);
    }
  }

  /** BackSkipSpace stops just past the last non-whitespace index: any index with that property is its result. */
  lemma {:induction false} BackSkipSpaceAt(s: string, lo: nat, j: nat, k: nat)
    requires lo <= k <= j <= |s|
    requires forall m :: k <= m < j ==> IsSpace(s[m])
    requires lo < k ==> !IsSpace(s[k - 1])
    ensures BackSkipSpace(s, lo, j) == k
    decreases j - k
  {
    if k < j {
      BackSkipSpaceAt(s, lo, j - 1, k);
    }
  }

  /** A whitespace character in front moves SkipSpace's result on by one. */
  lemma SkipSpaceOfLeadingSpace(s: string)
    requires s != [] && IsSpace(s[0])
    ensures SkipSpace(s, 0) == SkipSpace(s[1..], 0) + 1
  {
    var t := s[1..];
    var a := SkipSpace(t, 0);
    SkipSpaceOnlySpace(t, 0);
    forall m | 0 <= m < a + 1
      ensures IsSpace(s[m])
    {
      if m > 0 {
        assert s[m] == t[m - 1];
      }
    }
    assert a + 1 < |s| ==> s[a + 1] == t[a];
    SkipSpaceAt(s, 0, a + 1);
  }

  /** One more character in front moves BackSkipSpace's result on by one. */
  lemma BackSkipSpaceOfLonger(s: string, lo: nat)
    requires lo < |s|
    ensures BackSkipSpace(s, lo + 1, |s|) == BackSkipSpace(s[1..], lo, |s| - 1) + 1
  {
    var t := s[1..];
    var b := BackSkipSpace(t, lo, |t|);
    BackSkipSpaceOnlySpace(t, lo, |t|);
    forall m | b + 1 <= m < |s|
      ensures IsSpace(s[m])
    {
      assert s[m] == t[m - 1];
    }
    assert lo < b ==> s[b] == t[b - 1];
    BackSkipSpaceAt(s, lo + 1, |s|, b + 1);
  }

  /** A slice of the tail of s is the slice of s one position further on. */
  lemma SliceOfTail(s: string, i: nat, j: nat)
    requires i <= j < |s|
    ensures s[1..][i..j] == s[i + 1..j + 1]
  {
  }

  /** Leading whitespace makes no difference to TrimSpace. */
  lemma TrimSpaceOfLeadingSpace(s: string)
    requires s != [] && IsSpace(s[0])
    ensures TrimSpace(s) == TrimSpace(s[1..])
  {
    var a := SkipSpace(s[1..], 0);
    SkipSpaceOfLeadingSpace(s);
    BackSkipSpaceOfLonger(s, a);
    SliceOfTail(s, a, BackSkipSpace(s[1..], a, |s| - 1));
  }

  /** The five characters html.EscapeString rewrites. */
  predicate IsEscapable(c: char)
  {
    c == '<' || c == '>' || c == '&' || c == '\'' || c == '"'
  }

  /** The four characters that may not appear raw in escaped text. */
  predicate IsMarkup(c: char)
  {
    c == '<' || c == '>' || c == '"' || c == '\''
  }

  /** s holds none of the five characters html.EscapeString rewrites. */
  predicate Plain(s: string)
  {
    forall i :: 0 <= i < |s| ==> !IsEscapable(s[i])
  }

  /** html.EscapeString on one character. */
  function EscapeChar(c: char): string
  {
    if c == '<' then "&lt;"
    else if c == '>' then "&gt;"
    else if c == '&' then "&amp;"
    else if c == '\'' then "&#39;"
    else if c == '"' then "&#34;"
    else [c]
  }

  /** html.EscapeString: each character replaced by its escape, left to right. */
  function Escape(s: string): (r: string)
    ensures |r| >= |s|
    ensures r == [] <==> s == []
  {
    if s == [] then [] else EscapeChar(s[0]) + Escape(s[1..])
  }

  /** s begins with one of the five entities html.EscapeString produces. */
  predicate StartsEntity(s: string)
  {
    "&lt;" <= s || "&gt;" <= s || "&amp;" <= s || "&#39;" <= s || "&#34;" <= s
  }

  /** No raw markup character, and every '&' opens one of the five entities. */
  predicate HtmlSafe(s: string)
  {
    && (forall i :: 0 <= i < |s| ==> !IsMarkup(s[i]))
    && (forall i :: 0 <= i < |s| && s[i] == '&' ==> StartsEntity(s[i..]))
  }

  /**
   * The inverse of Escape: decodes the five entities and copies every
   * other character.
   */
  function Unescape(s: string): string
    decreases |s|
  {
    if s == [] then []
    else if "&lt;" <= s then ['<'] + Unescape(s[4..])
    else if "&gt;" <= s then ['>'] + Unescape(s[4..])
    else if "&amp;" <= s then ['&'] + Unescape(s[5..])
    else if "&#39;" <= s then ['\''] + Unescape(s[5..])
    else if "&#34;" <= s then ['"'] + Unescape(s[5..])
    else [s[0]] + Unescape(s[1..])
  }

  lemma StartsEntityExtend(x: string, y: string)
    requires StartsEntity(x)
    ensures StartsEntity(x + y)
  {
    var e :| e in ["&lt;", "&gt;", "&amp;", "&#39;", "&#34;"] && e <= x;
    assert (x + y)[..|e|] == x[..|e|];
  }

  lemma HtmlSafeConcat(a: string, b: string)
    requires HtmlSafe(a) && HtmlSafe(b)
    ensures HtmlSafe(a + b)
  {
    var s := a + b;
    forall i | 0 <= i < |s| && s[i] == '&'
      ensures StartsEntity(s[i..])
    {
      if i < |a| {
        assert s[i..] == a[i..] + b;
        StartsEntityExtend(a[i..], b);
      } else {
        assert s[i..] == b[i - |a|..];
      }
    }
  }

  lemma EscapeCharHtmlSafe(c: char)
    ensures HtmlSafe(EscapeChar(c))
  {
    var e := EscapeChar(c);
    if IsEscapable(c) {
      assert e[0] == '&' && StartsEntity(e);
      assert forall i :: 0 < i < |e| ==> e[i] != '&' && !IsMarkup(e[i]);
    }
  }

  /** Whatever the input, the escaped string is safe to embed in HTML. */
  lemma {:induction false} EscapeHtmlSafe(s: string)
    ensures HtmlSafe(Escape(s))
  {
    if s != [] {
      EscapeCharHtmlSafe(s[0]);
      EscapeHtmlSafe(s[1..]);
      HtmlSafeConcat(EscapeChar(s[0]), Escape(s[1..]));
    }
  }

  lemma UnescapeEscapeChar(c: char, t: string)
    ensures Unescape(EscapeChar(c) + t) == [c] + Unescape(t)
  {
    var s := EscapeChar(c) + t;
    if c == '<' {
      assert "&lt;" <= s && s[4..] == t;
    } else if c == '>' {
      assert s[1] == 'g';
      assert !("&lt;" <= s) && "&gt;" <= s && s[4..] == t;
    } else if c == '&' {
      assert s[1] == 'a';
      assert !("&lt;" <= s) && !("&gt;" <= s) && "&amp;" <= s && s[5..] == t;
    } else if c == '\'' {
      assert s[2] == '3' && s[3] == '9';
      assert !("&lt;" <= s) && !("&gt;" <= s) && !("&amp;" <= s) && "&#39;" <= s && s[5..] == t;
    } else if c == '"' {
      assert s[2] == '3' && s[3] == '4';
      assert !("&lt;" <= s) && !("&gt;" <= s) && !("&amp;" <= s) && !("&#39;" <= s);
      assert "&#34;" <= s && s[5..] == t;
    } else {
      assert s[0] == c && s[1..] == t;
    }
  }

  /** Escape loses nothing: Unescape recovers the original string. */
  lemma {:induction false} UnescapeEscape(s: string)
    ensures Unescape(Escape(s)) == s
  {
    if s != [] {
      UnescapeEscapeChar(s[0], Escape(s[1..]));
      UnescapeEscape(s[1..]);
      assert [s[0]] + s[1..] == s;
    }
  }

  /** The first and last characters of an escaped string. */
  lemma {:induction false} EscapeEnds(s: string)
    requires s != []
    ensures Escape(s)[0] == (if IsEscapable(s[0]) then '&' else s[0])
    ensures Escape(s)[|Escape(s)| - 1] == (if IsEscapable(s[|s| - 1]) then ';' else s[|s| - 1])
  {
    var e := EscapeChar(s[0]);
    assert Escape(s) == e + Escape(s[1..]);
    if |s| == 1 {
      assert Escape(s[1..]) == [];
    } else {
      EscapeEnds(s[1..]);
      assert s[1..][|s[1..]| - 1] == s[|s| - 1];
    }
  }

  /** A string with nothing to escape is its own escape. */
  lemma {:induction false} EscapeOfPlain(s: string)
    requires Plain(s)
    ensures Escape(s) == s
  {
    if s != [] {
      EscapeOfPlain(s[1..]);
      assert [s[0]] + s[1..] == s;
    }
  }

  /** What Prepare stores in each string field: html.EscapeString(strings.TrimSpace(s)). */
  function Normalize(s: string): string
  {
    Escape(TrimSpace(s))
  }

  /** Escaping a trimmed string keeps it trimmed: '&' and ';' are not whitespace. */
  lemma EscapeKeepsTrimmed(t: string)
    requires Trimmed(t)
    ensures Trimmed(Escape(t))
  {
    if t != [] {
      EscapeEnds(t);
    }
  }

  /**
   * A normalised field is safe for HTML, is empty exactly when the input was
   * blank, and unescapes to the trimmed input.
   */
  lemma NormalizeSpec(s: string)
    ensures Trimmed(Normalize(s))
    ensures HtmlSafe(Normalize(s))
    ensures Normalize(s) == [] <==> Blank(s)
    ensures Unescape(Normalize(s)) == TrimSpace(s)
  {
    EscapeKeepsTrimmed(TrimSpace(s));
    TrimSpaceEmptyIffBlank(s);
    EscapeHtmlSafe(TrimSpace(s));
    UnescapeEscape(TrimSpace(s));
  }

  /** A trimmed string with nothing to escape is left as it is. */
  lemma NormalizeOfPlain(s: string)
    requires Trimmed(s) && Plain(s)
    ensures Normalize(s) == s
  {
    TrimSpaceOfTrimmed(s);
    EscapeOfPlain(s);
  }

  /** Escape lengthens exactly the strings that hold something to escape. */
  lemma {:induction false} EscapeLength(s: string)
    ensures |Escape(s)| == |s| <==> Plain(s)
  {
    if s != [] {
      EscapeLength(s[1..]);
      if Plain(s[1..]) && !IsEscapable(s[0]) {
        assert Plain(s);
      }
    }
  }

  /** The escape of s holds something to escape exactly when s does. */
  lemma {:induction false} EscapePlain(s: string)
    ensures Plain(Escape(s)) <==> Plain(s)
  {
    if s != [] {
      EscapePlain(s[1..]);
      var e := EscapeChar(s[0]);
      var r := Escape(s[1..]);
      assert Escape(s) == e + r;
      if IsEscapable(s[0]) {
        assert Escape(s)[0] == '&';
      } else if Plain(s[1..]) {
        assert Plain(s);
        assert forall i :: 1 <= i < |Escape(s)| ==> Escape(s)[i] == r[i - 1];
      } else {
        var j :| 0 <= j < |r| && IsEscapable(r[j]);
        assert Escape(s)[j + 1] == r[j];
      }
    }
  }

  /** A stored field is trimmed already, so normalising it again only escapes it. */
  lemma NormalizeOfNormalized(s: string)
    ensures Normalize(Normalize(s)) == Escape(Normalize(s))
  {
    EscapeKeepsTrimmed(TrimSpace(s));
    TrimSpaceOfTrimmed(Normalize(s));
  }

  /** With nothing to escape in the trimmed input, a stored field is stable. */
  lemma NormalizeTwiceOfPlain(s: string)
    requires Plain(TrimSpace(s))
    ensures Normalize(Normalize(s)) == Normalize(s)
  {
    NormalizeOfNormalized(s);
    EscapeOfPlain(TrimSpace(s));
    EscapeOfPlain(Normalize(s));
  }

  /** An escapable character in the trimmed input makes a second normalisation lengthen the field. */
  lemma NormalizeTwiceChanges(s: string)
    requires !Plain(TrimSpace(s))
    ensures |Normalize(Normalize(s))| > |Normalize(s)|
  {
    NormalizeOfNormalized(s);
    EscapePlain(TrimSpace(s));
    EscapeLength(Normalize(s));
  }

  /**
   * Normalising a stored field again changes it exactly when the trimmed
   * input held a character to escape: an entity is escaped a second time.
   */
  lemma NormalizeTwice(s: string)
    ensures Normalize(Normalize(s)) == Normalize(s) <==> Plain(TrimSpace(s))
  {
    if Plain(TrimSpace(s)) {
      NormalizeTwiceOfPlain(s);
    } else {
      NormalizeTwiceChanges(s);
    }
  }
}
