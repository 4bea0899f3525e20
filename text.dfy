/**
 * Text normalisation: `clean_text` of main.py, i.e. `re.sub(r'\s+', ' ', text).strip()`,
 * together with the string helpers the field extractors share (`str.strip`, the `in`
 * substring test).
 */
module Text {

  /**
   * Python's `str.isspace()`. On `str` patterns the regular-expression class `\s` matches
   * exactly these code points too, and `str.strip()` without arguments removes exactly these.
   */
  predicate IsSpace(c: char) {
    || c == ' '
    || ('\t' <= c <= '\r')              // \t \n \v \f \r
    || ('\U{1C}' <= c <= '\U{1F}')      // file, group, record and unit separators
    || c == '\U{85}' || c == '\U{A0}' || c == '\U{1680}'
    || ('\U{2000}' <= c <= '\U{200A}')
    || c == '\U{2028}' || c == '\U{2029}' || c == '\U{202F}' || c == '\U{205F}' || c == '\U{3000}'
  }

  /** The regular-expression class `\d`, taken as the ASCII digits. */
  predicate IsDigit(c: char) {
    '0' <= c <= '9'
  }

  // ---------------------------------------------------------------------------------------
  // Shape predicates

  predicate NoSpaces(s: string) {
    forall i :: 0 <= i < |s| ==> !IsSpace(s[i])
  }

  predicate AllSpaces(s: string) {
    forall i :: 0 <= i < |s| ==> IsSpace(s[i])
  }

  /** No whitespace character at either end. */
  predicate Trimmed(s: string) {
    s == [] || (!IsSpace(s[0]) && !IsSpace(s[|s| - 1]))
  }

  /** Never two whitespace characters in a row. */
  ghost predicate NoAdjacentSpaces(s: string) {
    forall i, j :: 0 <= i && j == i + 1 && j < |s| ==> !(IsSpace(s[i]) && IsSpace(s[j]))
  }

  /** The only whitespace character that occurs is the plain blank. */
  predicate OnlyBlanks(s: string) {
    forall i :: 0 <= i < |s| ==> IsSpace(s[i]) ==> s[i] == ' '
  }

  /** What `clean_text` is meant to produce. */
  ghost predicate Normalized(s: string) {
    Trimmed(s) && NoAdjacentSpaces(s) && OnlyBlanks(s)
  }

  /** `s` with every whitespace character removed. */
  function RemoveSpaces(s: string): string {
    if s == [] then []
    else (if IsSpace(s[0]) then [] else [s[0]]) + RemoveSpaces(s[1..])
  }

  lemma {:induction false} RemoveSpacesAppend(a: string, b: string)
    ensures RemoveSpaces(a + b) == RemoveSpaces(a) + RemoveSpaces(b)
  {
    if a == [] {
      assert a + b == b;
    } else {
      assert (a + b)[1..] == a[1..] + b;
      RemoveSpacesAppend(a[1..], b);
    }
  }

  lemma SplitAt(s: string, k: nat)
    requires k <= |s|
    ensures RemoveSpaces(s) == RemoveSpaces(s[..k]) + RemoveSpaces(s[k..])
  {
    assert s == s[..k] + s[k..];
    RemoveSpacesAppend(s[..k], s[k..]);
  }

  lemma {:induction false} RemoveSpacesOfSpaces(s: string)
    requires AllSpaces(s)
    ensures RemoveSpaces(s) == []
  {
    if s != [] {
      RemoveSpacesOfSpaces(s[1..]);
    }
  }

  // ---------------------------------------------------------------------------------------
  // str.strip()

  /** First index at or after `i` that holds no whitespace, or `|s|`. */
  function SpacesFrom(s: string, i: nat): (n: nat)
    requires i <= |s|
    ensures i <= n <= |s| && forall k :: i <= k < n ==> IsSpace(s[k])
    ensures n == |s| || !IsSpace(s[n])
    decreases |s| - i
  {
    if i < |s| && IsSpace(s[i]) then SpacesFrom(s, i + 1) else i
  }

  /** Start of the run of whitespace that ends just before index `j`. */
  function SpacesBefore(s: string, j: nat): (m: nat)
    requires j <= |s|
    ensures m <= j && forall k :: m <= k < j ==> IsSpace(s[k])
    ensures m == 0 || !IsSpace(s[m - 1])
  {
    if j > 0 && IsSpace(s[j - 1]) then SpacesBefore(s, j - 1) else j
  }

  /** Number of whitespace characters at the start of `s`. */
  function LeadingSpaces(s: string): (n: nat)
    ensures n <= |s| && forall i :: 0 <= i < n ==> IsSpace(s[i])
    ensures n == |s| || !IsSpace(s[n])
  {
    SpacesFrom(s, 0)
  }

  /** Index where the whitespace at the end of `s` begins. */
  function TrailingStart(s: string): (m: nat)
    ensures m <= |s| && forall i :: m <= i < |s| ==> IsSpace(s[i])
    ensures m == 0 || !IsSpace(s[m - 1])
  {
    SpacesBefore(s, |s|)
  }

  /** The contracts above determine the results. */
  lemma {:induction false} SpacesFromUnique(s: string, i: nat, n: nat)
    requires i <= n <= |s| && forall k :: i <= k < n ==> IsSpace(s[k])
    requires n == |s| || !IsSpace(s[n])
    ensures SpacesFrom(s, i) == n
    decreases n - i
  {
    if i < n {
      SpacesFromUnique(s, i + 1, n);
    }
  }

  lemma {:induction false} SpacesBeforeUnique(s: string, m: nat, j: nat)
    requires m <= j <= |s| && forall k :: m <= k < j ==> IsSpace(s[k])
    requires m == 0 || !IsSpace(s[m - 1])
    ensures SpacesBefore(s, j) == m
  {
    if m < j {
      SpacesBeforeUnique(s, m, j - 1);
    }
  }

  lemma LeadingSpacesUnique(s: string, n: nat)
    requires n <= |s| && forall i :: 0 <= i < n ==> IsSpace(s[i])
    requires n == |s| || !IsSpace(s[n])
    ensures LeadingSpaces(s) == n
  {
    SpacesFromUnique(s, 0, n);
  }

  lemma TrailingStartUnique(s: string, m: nat)
    requires m <= |s| && forall i :: m <= i < |s| ==> IsSpace(s[i])
    requires m == 0 || !IsSpace(s[m - 1])
    ensures TrailingStart(s) == m
  {
    SpacesBeforeUnique(s, m, |s|);
  }

  /** `str.lstrip()`. */
  function LStrip(s: string): (r: string)
    ensures |r| <= |s|
    ensures r == [] || !IsSpace(r[0])
  {
    s[LeadingSpaces(s)..]
  }

  /** `str.strip()`: a slice of `s` with no whitespace at either end; only whitespace is cut. */
  function Strip(s: string): (r: string)
    ensures Trimmed(r) && |r| <= |s|
  {
    var lo := LeadingSpaces(s);
    var hi := TrailingStart(s);
    if hi <= lo then [] else s[lo..hi]
  }

  /** `strip` removes a run of whitespace from each end and keeps what lies between. */
  lemma StripIsSlice(s: string)
    ensures exists lo, hi :: (0 <= lo <= hi <= |s| && Strip(s) == s[lo..hi]
                              && AllSpaces(s[..lo]) && AllSpaces(s[hi..]))
  {
    var lo := LeadingSpaces(s);
    var hi := TrailingStart(s);
    if hi <= lo {
      assert s[lo..lo] == [];
      assert AllSpaces(s[lo..]);
    } else {
      assert AllSpaces(s[..lo]);
      assert AllSpaces(s[hi..]);
    }
  }

  /** `Strip` is determined by where the non-whitespace text begins and ends. */
  lemma StripByBounds(s: string, lo: nat, hi: nat)
    requires lo <= hi <= |s|
    requires forall i :: 0 <= i < lo ==> IsSpace(s[i])
    requires forall i :: hi <= i < |s| ==> IsSpace(s[i])
    requires lo < hi ==> !IsSpace(s[lo]) && !IsSpace(s[hi - 1])
    ensures Strip(s) == s[lo..hi]
  {
    if lo < hi {
      LeadingSpacesUnique(s, lo);
      TrailingStartUnique(s, hi);
    } else {
      forall i | lo <= i < |s| ensures IsSpace(s[i]) {
      }
      LeadingSpacesUnique(s, |s|);
    }
  }

  lemma LStripUnchanged(s: string)
    requires s == [] || !IsSpace(s[0])
    ensures LStrip(s) == s
  {
  }

  lemma LStripDropSpace(s: string)
    requires s != [] && IsSpace(s[0])
    ensures LStrip(s) == LStrip(s[1..])
  {
    var n := LeadingSpaces(s[1..]);
    forall i | 0 <= i < 1 + n ensures IsSpace(s[i]) {
      if i > 0 {
        assert s[i] == s[1..][i - 1];
      }
    }
    if 1 + n < |s| {
      assert s[1 + n] == s[1..][n];
    }
    LeadingSpacesUnique(s, 1 + n);
    assert s[1 + n..] == s[1..][n..];
  }

  lemma LStripEmpty(s: string)
    ensures LStrip(s) == [] <==> AllSpaces(s)
  {
    if AllSpaces(s) {
      LeadingSpacesUnique(s, |s|);
    }
  }

  /** Trailing whitespace of `a + x` is that of `x` when `x` starts with text. */
  lemma TrailingStartAfter(a: string, x: string)
    requires x != [] && !IsSpace(x[0])
    ensures TrailingStart(a + x) == |a| + TrailingStart(x)
  {
    var s := a + x;
    var k := TrailingStart(x);
    forall i | |a| + k <= i < |s| ensures IsSpace(s[i]) {
      assert s[i] == x[i - |a|];
    }
    assert k > 0;
    assert s[|a| + k - 1] == x[k - 1];
    TrailingStartUnique(s, |a| + k);
  }

  lemma StripFromStart(c: string)
    requires c == [] || !IsSpace(c[0])
    ensures Strip(c) == c[..TrailingStart(c)]
  {
    StripByBounds(c, 0, TrailingStart(c));
    assert c[0..TrailingStart(c)] == c[..TrailingStart(c)];
  }

  lemma StripBehindBlank(c: string)
    requires c != [] && !IsSpace(c[0])
    ensures Strip([' '] + c) == c[..TrailingStart(c)]
  {
    var s := [' '] + c;
    var k := TrailingStart(c);
    TrailingStartAfter([' '], c);
    assert s[1] == c[0];
    LeadingSpacesUnique(s, 1);
    assert s[1..1 + k] == c[..k];
  }

  /** A blank in front of text that starts with a non-whitespace character is stripped off. */
  lemma StripDropBlank(c: string)
    requires c == [] || !IsSpace(c[0])
    ensures Strip([' '] + c) == Strip(c)
  {
    if c == [] {
      LeadingSpacesUnique([' '], 1);
    } else {
      StripBehindBlank(c);
      StripFromStart(c);
    }
  }

  // ---------------------------------------------------------------------------------------
  // re.sub(r'\s+', ' ', s)

  /**
   * Every maximal run of whitespace replaced by one blank: a whitespace character that
   * another one follows is dropped, the last one of each run becomes ' '.
   */
  function CollapseSpaces(s: string): (r: string)
    ensures r == [] <==> s == []
    ensures s != [] ==> (IsSpace(r[0]) <==> IsSpace(s[0]))
  {
    if s == [] then []
    else if IsSpace(s[0]) && |s| > 1 && IsSpace(s[1]) then CollapseSpaces(s[1..])
    else if IsSpace(s[0]) then [' '] + CollapseSpaces(s[1..])
    else [s[0]] + CollapseSpaces(s[1..])
  }

  lemma PrependShape(x: char, c: string)
    requires NoAdjacentSpaces(c) && OnlyBlanks(c)
    requires IsSpace(x) ==> x == ' ' && (c == [] || !IsSpace(c[0]))
    ensures NoAdjacentSpaces([x] + c) && OnlyBlanks([x] + c)
  {
    var r := [x] + c;
    forall i, j | 0 <= i && j == i + 1 && j < |r|
      ensures !(IsSpace(r[i]) && IsSpace(r[j]))
    {
      if i > 0 {
        assert r[i] == c[i - 1] && r[j] == c[j - 1];
      }
    }
    forall i | 0 <= i < |r| && IsSpace(r[i]) ensures r[i] == ' ' {
      if i > 0 {
        assert r[i] == c[i - 1];
      }
    }
  }

  /** After collapsing, whitespace comes one blank at a time. */
  lemma {:induction false} CollapseShape(s: string)
    ensures NoAdjacentSpaces(CollapseSpaces(s)) && OnlyBlanks(CollapseSpaces(s))
  {
    if s != [] {
      CollapseShape(s[1..]);
      var c := CollapseSpaces(s[1..]);
      if !(IsSpace(s[0]) && |s| > 1 && IsSpace(s[1])) {
        var x := if IsSpace(s[0]) then ' ' else s[0];
        assert CollapseSpaces(s) == [x] + c;
        PrependShape(x, c);
      }
    }
  }

  /** Collapsing only touches whitespace. */
  lemma {:induction false} CollapseKeepsNonSpaces(s: string)
    ensures RemoveSpaces(CollapseSpaces(s)) == RemoveSpaces(s)
  {
    if s != [] {
      CollapseKeepsNonSpaces(s[1..]);
      var c := CollapseSpaces(s[1..]);
      if !(IsSpace(s[0]) && |s| > 1 && IsSpace(s[1])) {
        var x := if IsSpace(s[0]) then ' ' else s[0];
        assert CollapseSpaces(s) == [x] + c;
        assert ([x] + c)[1..] == c;
      }
    }
  }

  lemma {:induction false} CollapseOfSpaces(s: string)
    requires AllSpaces(s)
    ensures s != [] ==> CollapseSpaces(s) == [' ']
  {
    if s != [] {
      CollapseOfSpaces(s[1..]);
    }
  }

  /** A leading whitespace run becomes one blank. */
  lemma {:induction false} CollapseLeadingSpaces(s: string)
    requires s != [] && IsSpace(s[0])
    ensures CollapseSpaces(s) == [' '] + CollapseSpaces(LStrip(s))
  {
    LStripDropSpace(s);
    if |s| > 1 && IsSpace(s[1]) {
      CollapseLeadingSpaces(s[1..]);
    } else {
      LStripUnchanged(s[1..]);
    }
  }

  /** A slice of a string keeps the two run-shape properties. */
  lemma SliceShape(c: string, lo: nat, hi: nat)
    requires lo <= hi <= |c|
    requires NoAdjacentSpaces(c) && OnlyBlanks(c)
    ensures NoAdjacentSpaces(c[lo..hi]) && OnlyBlanks(c[lo..hi])
  {
    var r := c[lo..hi];
    forall i, j | 0 <= i && j == i + 1 && j < |r|
      ensures !(IsSpace(r[i]) && IsSpace(r[j]))
    {
      assert r[i] == c[lo + i] && r[j] == c[lo + j];
    }
  }

  /** Stripping a string whose whitespace comes one blank at a time gives a normalised string. */
  lemma StripShape(c: string)
    requires NoAdjacentSpaces(c) && OnlyBlanks(c)
    ensures Normalized(Strip(c))
  {
    StripIsSlice(c);
    var lo, hi :| 0 <= lo <= hi <= |c| && Strip(c) == c[lo..hi];
    SliceShape(c, lo, hi);
  }

  lemma RemoveSpacesDropPrefix(c: string, lo: nat)
    requires lo <= |c| && forall i :: 0 <= i < lo ==> IsSpace(c[i])
    ensures RemoveSpaces(c[lo..]) == RemoveSpaces(c)
  {
    SplitAt(c, lo);
    assert AllSpaces(c[..lo]);
    RemoveSpacesOfSpaces(c[..lo]);
  }

  lemma RemoveSpacesDropSuffix(c: string, hi: nat)
    requires hi <= |c| && forall i :: hi <= i < |c| ==> IsSpace(c[i])
    ensures RemoveSpaces(c[..hi]) == RemoveSpaces(c)
  {
    SplitAt(c, hi);
    forall i | 0 <= i < |c| - hi ensures IsSpace(c[hi..][i]) {
      assert c[hi..][i] == c[hi + i];
    }
    RemoveSpacesOfSpaces(c[hi..]);
  }

  /** Cutting whitespace off both ends keeps every other character. */
  lemma RemoveSpacesOfMiddle(c: string, lo: nat, hi: nat)
    requires lo <= hi <= |c|
    requires forall i :: 0 <= i < lo ==> IsSpace(c[i])
    requires forall i :: hi <= i < |c| ==> IsSpace(c[i])
    ensures RemoveSpaces(c[lo..hi]) == RemoveSpaces(c)
  {
    var t := c[..hi];
    RemoveSpacesDropSuffix(c, hi);
    forall i | 0 <= i < lo ensures IsSpace(t[i]) {
      assert t[i] == c[i];
    }
    RemoveSpacesDropPrefix(t, lo);
    assert t[lo..] == c[lo..hi];
  }

  /** Stripping only removes whitespace. */
  lemma StripKeepsNonSpaces(c: string)
    ensures RemoveSpaces(Strip(c)) == RemoveSpaces(c)
  {
    var lo := LeadingSpaces(c);
    var hi := TrailingStart(c);
    if hi <= lo {
      assert c[lo..lo] == Strip(c);
      RemoveSpacesOfMiddle(c, lo, lo);
    } else {
      RemoveSpacesOfMiddle(c, lo, hi);
    }
  }

  // ---------------------------------------------------------------------------------------
  // clean_text

  /** main.py `clean_text`: collapse every whitespace run to one blank, then strip. */
  function CleanText(text: string): (r: string)
    ensures Normalized(r)
    ensures RemoveSpaces(r) == RemoveSpaces(text)
  {
    var c := CollapseSpaces(text);
    CollapseShape(text);
    CollapseKeepsNonSpaces(text);
    StripShape(c);
    StripKeepsNonSpaces(c);
    Strip(c)
  }

  lemma {:induction false} CollapseFixesNormalized(s: string)
    requires NoAdjacentSpaces(s) && OnlyBlanks(s)
    ensures CollapseSpaces(s) == s
    decreases |s|
  {
    if s != [] {
      assert |s| > 1 ==> !(IsSpace(s[0]) && IsSpace(s[1]));
      CollapseFixesNormalized(s[1..]);
    }
  }

  /** A string that is already normalised is left as it is. */
  lemma CleanTextFixesNormalized(s: string)
    requires Normalized(s)
    ensures CleanText(s) == s
  {
    CollapseFixesNormalized(s);
    StripByBounds(s, 0, |s|);
    assert s[0..|s|] == s;
  }

  /** A string without whitespace passes through `clean_text` unchanged. */
  lemma CleanTextFixesNoSpaces(s: string)
    requires NoSpaces(s)
    ensures CleanText(s) == s
  {
    CleanTextFixesNormalized(s);
  }

  /** `clean_text` is idempotent. */
  lemma CleanTextIdempotent(text: string)
    ensures CleanText(CleanText(text)) == CleanText(text)
  {
    CleanTextFixesNormalized(CleanText(text));
  }

  // ---------------------------------------------------------------------------------------
  // Reference definition: " ".join(text.split())

  /** Length of the leading run of non-whitespace characters. */
  function WordLength(s: string): (n: nat)
    ensures n <= |s| && NoSpaces(s[..n])
    ensures n == |s| || IsSpace(s[n])
  {
    if s == [] || IsSpace(s[0]) then 0 else 1 + WordLength(s[1..])
  }

  /** `str.split()` without arguments: the maximal runs of non-whitespace characters, in order. */
  function Words(s: string): seq<string>
    decreases |s|
  {
    var t := LStrip(s);
    if t == [] then []
    else
      var n := WordLength(t);
      [t[..n]] + Words(t[n..])
  }

  /** `" ".join(ws)`. */
  function JoinWords(ws: seq<string>): string {
    if ws == [] then []
    else if |ws| == 1 then ws[0]
    else ws[0] + [' '] + JoinWords(ws[1..])
  }

  /** A run of non-whitespace characters passes through the collapse unchanged. */
  lemma {:induction false} CollapseWord(w: string, rest: string)
    requires NoSpaces(w)
    ensures CollapseSpaces(w + rest) == w + CollapseSpaces(rest)
    decreases |w|
  {
    if w == [] {
      assert w + rest == rest;
    } else {
      var s := w + rest;
      assert s[0] == w[0] && !IsSpace(s[0]);
      assert CollapseSpaces(s) == [w[0]] + CollapseSpaces(s[1..]);
      assert s[1..] == w[1..] + rest;
      CollapseWord(w[1..], rest);
      assert w == [w[0]] + w[1..];
    }
  }

  lemma CleanOfAllSpaces(text: string)
    requires AllSpaces(text)
    ensures CleanText(text) == []
  {
    if text != [] {
      CollapseOfSpaces(text);
      LeadingSpacesUnique([' '], 1);
    }
  }

  /** Leading whitespace becomes one blank, which `strip` removes again. */
  lemma CleanSkipsLeadingSpaces(text: string)
    ensures CleanText(text) == Strip(CollapseSpaces(LStrip(text)))
  {
    if text != [] && IsSpace(text[0]) {
      var c := CollapseSpaces(LStrip(text));
      CollapseLeadingSpaces(text);
      StripDropBlank(c);
    }
  }

  lemma StripWordThenSpaces(w: string, x: string)
    requires w != [] && NoSpaces(w) && AllSpaces(x)
    ensures Strip(w + x) == w
  {
    var s := w + x;
    forall i | |w| <= i < |s| ensures IsSpace(s[i]) {
      assert s[i] == x[i - |w|];
    }
    StripByBounds(s, 0, |w|);
    assert s[0..|w|] == w;
  }

  /** Text that starts with a non-whitespace character keeps all of `a` when stripped. */
  lemma StripAfterText(a: string, x: string)
    requires a != [] && !IsSpace(a[0]) && x != [] && !IsSpace(x[0])
    ensures Strip(a + x) == a + Strip(x)
  {
    var k := TrailingStart(x);
    TrailingStartAfter(a, x);
    assert (a + x)[0] == a[0];
    StripFromStart(a + x);
    StripFromStart(x);
    PrefixOfConcat(a, x, k);
  }

  lemma PrefixOfConcat(a: string, x: string, k: nat)
    requires k <= |x|
    ensures (a + x)[..|a| + k] == a + x[..k]
  {
  }

  lemma StripWordBlankRest(w: string, x: string)
    requires w != [] && NoSpaces(w) && x != [] && !IsSpace(x[0])
    ensures Strip(w + ([' '] + x)) == w + [' '] + Strip(x)
  {
    assert w + ([' '] + x) == (w + [' ']) + x;
    StripAfterText(w + [' '], x);
  }

  lemma WordsAtWord(t: string)
    requires t != [] && !IsSpace(t[0])
    ensures Words(t) == [t[..WordLength(t)]] + Words(t[WordLength(t)..])
  {
    LStripUnchanged(t);
  }

  lemma WordsSkipSpaces(s: string)
    ensures Words(s) == Words(LStrip(s))
  {
    LStripUnchanged(LStrip(s));
  }

  /** A last word followed only by whitespace. */
  lemma CleanLastWord(w: string, rest: string)
    requires w != [] && NoSpaces(w) && AllSpaces(rest)
    ensures Strip(CollapseSpaces(w + rest)) == w
  {
    CollapseWord(w, rest);
    CollapseOfSpaces(rest);
    StripWordThenSpaces(w, CollapseSpaces(rest));
  }

  /** A word followed by whitespace and at least one more word. */
  lemma CleanWordThenMore(w: string, rest: string)
    requires w != [] && NoSpaces(w) && rest != [] && IsSpace(rest[0]) && LStrip(rest) != []
    ensures Strip(CollapseSpaces(w + rest)) == w + [' '] + Strip(CollapseSpaces(LStrip(rest)))
  {
    CollapseWord(w, rest);
    CollapseLeadingSpaces(rest);
    StripWordBlankRest(w, CollapseSpaces(LStrip(rest)));
  }

  lemma JoinCons(w: string, ws: seq<string>)
    requires ws != []
    ensures JoinWords([w] + ws) == w + [' '] + JoinWords(ws)
  {
    assert ([w] + ws)[1..] == ws;
  }

  lemma {:induction false} JoinOfCollapsed(t: string)
    requires t != [] && !IsSpace(t[0])
    ensures Strip(CollapseSpaces(t)) == JoinWords(Words(t))
    decreases |t|
  {
    var n := WordLength(t);
    var w, rest := t[..n], t[n..];
    assert t == w + rest;
    WordsAtWord(t);
    var u := LStrip(rest);
    if u == [] {
      LStripEmpty(rest);
      assert Words(rest) == [];
      CleanLastWord(w, rest);
    } else {
      CleanWordThenMore(w, rest);
      WordsSkipSpaces(rest);
      JoinOfCollapsed(u);
      assert Words(u) != [] by {
        LStripUnchanged(u);
      }
      JoinCons(w, Words(u));
    }
  }

  /** `clean_text(t)` equals `" ".join(t.split())`. */
  lemma CleanTextIsJoinOfWords(text: string)
    ensures CleanText(text) == JoinWords(Words(text))
  {
    var t := LStrip(text);
    CleanSkipsLeadingSpaces(text);
    WordsSkipSpaces(text);
    if t != [] {
      JoinOfCollapsed(t);
    }
  }

  // ---------------------------------------------------------------------------------------
  // Python's `sub in s`

  /** Python's `sub in s` for strings: `sub` occurs in `s` at some position. */
  function Contains(s: string, sub: string): (r: bool)
    ensures r <==> exists i :: 0 <= i <= |s| - |sub| && sub <= s[i..]
    decreases |s|
  {
    if sub <= s then
      assert sub <= s[0..];
      true
    else if s == [] then false
    else
      var r := Contains(s[1..], sub);
      assert forall i :: 1 <= i <= |s| ==> s[1..][i - 1..] == s[i..];
      r
  }
}
