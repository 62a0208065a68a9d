/** The text cleaning of `ArabicTextPreprocessing.basic_clean`: four stages, each a function
    on strings, composed in `BasicClean`.

    1. `RemoveDiacritics` deletes every character of the diacritic class.
    2. `CollapseWhitespace` turns every run of whitespace into one ' '.
    3. `Strip` removes leading and trailing whitespace.
    4. `RemoveLineNumbers` removes matches of `^\d+\s+` at line starts (multi-line mode).

    Python's `\d` (the Unicode decimal digits of the regex engine) is kept abstract: every
    function that needs it takes the class as a parameter `isDigit`. */
module ArabicText {

  // ---------------------------------------------------------------------------
  // Character classes
  // ---------------------------------------------------------------------------

  /** The characters Python's `\s` matches in a `str` pattern, which are also the ones
      `str.strip()` removes. */
  predicate IsSpace(c: char)
  {
    var n := c as int;
    (0x09 <= n <= 0x0D) || (0x1C <= n <= 0x20) || n == 0x85 || n == 0xA0 || n == 0x1680 ||
    (0x2000 <= n <= 0x200A) || n == 0x2028 || n == 0x2029 || n == 0x202F || n == 0x205F ||
    n == 0x3000
  }

  /** `\s` takes in the ASCII whitespace, the no-break space and the ideographic space,
      but not the zero-width space U+200B. */
  lemma WhitespaceClass()
    ensures forall c :: c in " \t\n\r\U{000B}\U{000C}\U{00A0}\U{3000}" ==> IsSpace(c)
    ensures !IsSpace('\U{200B}')
  {
  }

  /** The class of `diacritics_pattern`: the Arabic marks U+0610..U+061A, U+064B..U+065F,
      U+0670 and U+06D6..U+06ED, the tatweel U+0640 and the bullet U+F0B7. */
  predicate IsDiacritic(c: char)
  {
    var n := c as int;
    (0x0610 <= n <= 0x061A) || (0x064B <= n <= 0x065F) || n == 0x0670 ||
    (0x06D6 <= n <= 0x06ED) || n == 0x0640 || n == 0xF0B7
  }

  /** The class takes in the tatweel U+0640 and the bullet U+F0B7, and no whitespace
      character, so deleting it never removes whitespace. */
  lemma DiacriticClass(c: char)
    ensures c == '\U{0640}' || c == '\U{F0B7}' ==> IsDiacritic(c)
    ensures IsDiacritic(c) ==> !IsSpace(c)
  {
  }

  /** A digit class for `\d` never contains whitespace (true of Unicode's decimal digits). */
  ghost predicate DigitsAreNotSpaces(isDigit: char -> bool)
  {
    forall c :: isDigit(c) ==> !IsSpace(c)
  }

  // ---------------------------------------------------------------------------
  // Shapes of cleaned text
  // ---------------------------------------------------------------------------

  /** Every whitespace character in `s` is the plain space ' '. */
  predicate OnlyPlainSpaces(s: string)
  {
    forall i :: 0 <= i < |s| && IsSpace(s[i]) ==> s[i] == ' '
  }

  /** No two neighbouring characters of `s` are both whitespace. */
  predicate NoAdjacentSpaces(s: string)
  {
    forall i :: 0 <= i && i + 1 < |s| ==> !(IsSpace(s[i]) && IsSpace(s[i + 1]))
  }

  /** `s` neither begins nor ends with whitespace. */
  predicate NoOuterSpaces(s: string)
  {
    s == [] || (!IsSpace(s[0]) && !IsSpace(s[|s| - 1]))
  }

  predicate DiacriticFree(s: string)
  {
    forall i :: 0 <= i < |s| ==> !IsDiacritic(s[i])
  }

  /** Output character `a` may stand for input character `b`: it is `b`, or `b` is
      whitespace that became ' '. */
  predicate Matches(a: char, b: char)
  {
    a == b || (a == ' ' && IsSpace(b))
  }

  /** `r` arises from `t` by deleting characters and replacing whitespace characters
      by ' ': `r` is a subsequence of `t` up to that replacement. */
  ghost predicate Embeds(r: string, t: string)
    decreases |t|
  {
    if r == [] then true
    else if t == [] then false
    else (Matches(r[0], t[0]) && Embeds(r[1..], t[1..])) || Embeds(r, t[1..])
  }

  /** The non-whitespace characters of `s`, in order. */
  function NonSpaces(s: string): (r: string)
    ensures |r| <= |s|
    ensures forall i :: 0 <= i < |r| ==> !IsSpace(r[i])
  {
    if s == [] then []
    else if IsSpace(s[0]) then NonSpaces(s[1..])
    else [s[0]] + NonSpaces(s[1..])
  }

  // ---------------------------------------------------------------------------
  // Facts about Embeds
  // ---------------------------------------------------------------------------

  lemma {:induction false} EmbedsReflexive(s: string)
    ensures Embeds(s, s)
  {
    if s != [] {
      EmbedsReflexive(s[1..]);
    }
  }

  /** Characters in front of the input may be skipped. */
  lemma {:induction false} EmbedsDropLeft(r: string, t: string, j: nat)
    requires j <= |t|
    requires Embeds(r, t[j..])
    ensures Embeds(r, t)
  {
    if j > 0 {
      assert t[1..][j - 1..] == t[j..];
      EmbedsDropLeft(r, t[1..], j - 1);
    }
  }

  /** Characters behind the input may be skipped. */
  lemma {:induction false} EmbedsExtendRight(r: string, t: string, z: string)
    requires Embeds(r, t)
    ensures Embeds(r, t + z)
    decreases |t|
  {
    if r != [] {
      assert (t + z)[1..] == t[1..] + z;
      if Matches(r[0], t[0]) && Embeds(r[1..], t[1..]) {
        EmbedsExtendRight(r[1..], t[1..], z);
      } else {
        EmbedsExtendRight(r, t[1..], z);
      }
    }
  }

  /** Every slice of `s` embeds in `s`. */
  lemma EmbedsSlice(s: string, a: nat, b: nat)
    requires a <= b <= |s|
    ensures Embeds(s[a..b], s)
  {
    EmbedsReflexive(s[a..b]);
    assert s[a..] == s[a..b] + s[b..];
    EmbedsExtendRight(s[a..b], s[a..b], s[b..]);
    EmbedsDropLeft(s[a..b], s, a);
  }

  lemma {:induction false} EmbedsTransitive(a: string, b: string, c: string)
    requires Embeds(a, b) && Embeds(b, c)
    ensures Embeds(a, c)
    decreases |c|
  {
    if a != [] {
      if Embeds(b, c[1..]) {
        EmbedsTransitive(a, b, c[1..]);
      } else if Matches(a[0], b[0]) && Embeds(a[1..], b[1..]) {
        EmbedsTransitive(a[1..], b[1..], c[1..]);
      } else {
        EmbedsTransitive(a, b[1..], c[1..]);
      }
    }
  }

  lemma {:induction false} EmbedsLength(r: string, t: string)
    requires Embeds(r, t)
    ensures |r| <= |t|
    decreases |t|
  {
    if r != [] {
      if Matches(r[0], t[0]) && Embeds(r[1..], t[1..]) {
        EmbedsLength(r[1..], t[1..]);
      } else {
        EmbedsLength(r, t[1..]);
      }
    }
  }

  /** What embeds in diacritic-free text is diacritic-free: the only character an
      embedding may introduce is ' '. */
  lemma {:induction false} EmbedsDiacriticFree(r: string, t: string)
    requires Embeds(r, t) && DiacriticFree(t)
    ensures DiacriticFree(r)
    decreases |t|
  {
    if r != [] {
      if Matches(r[0], t[0]) && Embeds(r[1..], t[1..]) {
        EmbedsDiacriticFree(r[1..], t[1..]);
      } else {
        EmbedsDiacriticFree(r, t[1..]);
      }
    }
  }

  // ---------------------------------------------------------------------------
  // Words
  // ---------------------------------------------------------------------------

  /** Where the run of non-whitespace characters that starts at index `i` of `s` ends. */
  function WordEnd(s: string, i: nat): (e: nat)
    requires i <= |s|
    ensures i <= e <= |s|
    ensures forall j :: i <= j < e ==> !IsSpace(s[j])
    ensures e < |s| ==> IsSpace(s[e])
    decreases |s| - i
  {
    if i < |s| && !IsSpace(s[i]) then WordEnd(s, i + 1) else i
  }

  /** `WordEnd` is the only index with its two properties. */
  lemma WordEndUnique(s: string, i: nat, e: nat)
    requires i <= e <= |s|
    requires forall j :: i <= j < e ==> !IsSpace(s[j])
    requires e < |s| ==> IsSpace(s[e])
    ensures WordEnd(s, i) == e
  {
  }

  /** `s.split()`: the maximal runs of non-whitespace characters of `s`, in order. */
  function Words(s: string): (ws: seq<string>)
    ensures forall k :: 0 <= k < |ws| ==> ws[k] != []
    decreases |s|
  {
    if s == [] then []
    else if IsSpace(s[0]) then Words(s[1..])
    else
      var e := WordEnd(s, 0);
      [s[..e]] + Words(s[e..])
  }

  /** `" ".join(ws)`. */
  function Unwords(ws: seq<string>): string
  {
    if ws == [] then []
    else if |ws| == 1 then ws[0]
    else ws[0] + " " + Unwords(ws[1..])
  }

  /** The shape `basic_clean` gives its output: its only whitespace is single ' '
      characters, none of them at either end. */
  predicate SingleSpaced(s: string)
  {
    OnlyPlainSpaces(s) && NoAdjacentSpaces(s) && NoOuterSpaces(s)
  }

  /** Leading whitespace does not change the words. */
  lemma {:induction false} WordsSkipSpaces(s: string, k: nat)
    requires k <= |s|
    requires forall i :: 0 <= i < k ==> IsSpace(s[i])
    ensures Words(s[k..]) == Words(s)
  {
    if k > 0 {
      assert s[1..][k - 1..] == s[k..];
      WordsSkipSpaces(s[1..], k - 1);
    }
  }

  /** Trailing whitespace does not change the words. */
  lemma {:induction false} WordsTrailingSpaces(x: string, z: string)
    requires forall i :: 0 <= i < |z| ==> IsSpace(z[i])
    ensures Words(x + z) == Words(x)
    decreases |x|
  {
    if x == [] {
      assert x + z == z;
      WordsSkipSpaces(z, |z|);
      assert z[|z|..] == [];
    } else if IsSpace(x[0]) {
      assert (x + z)[1..] == x[1..] + z;
      WordsTrailingSpaces(x[1..], z);
    } else {
      var e := WordEnd(x, 0);
      WordEndUnique(x + z, 0, e);
      assert (x + z)[..e] == x[..e];
      assert (x + z)[e..] == x[e..] + z;
      WordsTrailingSpaces(x[e..], z);
    }
  }

  /** A non-whitespace character put in front of `t` starts a new first word, or joins
      `t`'s first word when `t` starts with one. */
  lemma WordsCons(c: char, t: string)
    requires !IsSpace(c)
    ensures Words([c] + t) ==
      if t == [] || IsSpace(t[0]) then [[c]] + Words(t)
      else [[c] + Words(t)[0]] + Words(t)[1..]
  {
    var u := [c] + t;
    if t == [] || IsSpace(t[0]) {
      WordEndUnique(u, 0, 1);
      assert u[..1] == [c] && u[1..] == t;
    } else {
      var e := WordEnd(t, 0);
      WordEndUnique(u, 0, e + 1);
      assert u[..e + 1] == [c] + t[..e];
      assert u[e + 1..] == t[e..];
    }
  }

  /** The first word of text that starts with one is followed by the words after the
      whitespace character that ends it. */
  lemma WordsAfterFirst(s: string)
    requires s != [] && !IsSpace(s[0]) && WordEnd(s, 0) < |s|
    ensures var e := WordEnd(s, 0);
      Words(s) == [s[..e]] + Words(s[e + 1..])
  {
    var e := WordEnd(s, 0);
    assert s[e..][1..] == s[e + 1..];
    WordsSkipSpaces(s[e..], 1);
  }

  /** What follows a space inside single-spaced text is single-spaced and does not start
      with whitespace. */
  lemma SingleSpacedAfterSpace(s: string, k: nat)
    requires SingleSpaced(s) && 0 < k < |s| && IsSpace(s[k - 1])
    ensures SingleSpaced(s[k..]) && !IsSpace(s[k])
  {
    assert !IsSpace(s[k]);
    SliceKeepsSpacing(s, k, |s|);
    assert s[k..][0] == s[k] && s[k..][|s| - k - 1] == s[|s| - 1];
  }

  /** Single-spaced text with a space in it is its first word, one ' ', and single-spaced
      text holding the other words. */
  lemma SingleSpacedSplit(s: string)
    requires SingleSpaced(s) && s != [] && WordEnd(s, 0) < |s|
    ensures var e := WordEnd(s, 0);
      e + 1 < |s| && s == s[..e] + " " + s[e + 1..] && SingleSpaced(s[e + 1..]) &&
      Words(s) == [s[..e]] + Words(s[e + 1..])
  {
    var e := WordEnd(s, 0);
    assert s[e] == ' ';
    assert e + 1 < |s|;
    SingleSpacedAfterSpace(s, e + 1);
    WordsAfterFirst(s);
    SplitAtSpace(s, e);
  }

  /** Text with ' ' at index `e` is what comes before it, " ", and what comes after. */
  lemma SplitAtSpace(s: string, e: nat)
    requires e < |s| && s[e] == ' '
    ensures s == s[..e] + " " + s[e + 1..]
  {
    assert s == s[..e] + [s[e]] + s[e + 1..];
  }

  /** Single-spaced text is the words it is made of, joined by single spaces: it is
      determined by its words. */
  lemma {:induction false} SingleSpacedIsUnwords(s: string)
    requires SingleSpaced(s)
    ensures Unwords(Words(s)) == s
    decreases |s|
  {
    if s != [] {
      var e := WordEnd(s, 0);
      assert !IsSpace(s[0]);
      if e < |s| {
        var t := s[e + 1..];
        SingleSpacedSplit(s);
        SingleSpacedIsUnwords(t);
        assert Words(t) != [] by {
          assert !IsSpace(t[0]);
        }
      } else {
        assert s[..e] == s && s[e..] == [];
      }
    }
  }

  // ---------------------------------------------------------------------------
  // Stage 1: delete the diacritic class
  // ---------------------------------------------------------------------------

  /** `diacritics_pattern.sub('', s)`. */
  function RemoveDiacritics(s: string): (r: string)
    ensures DiacriticFree(r)
    ensures Embeds(r, s)
  {
    if s == [] then []
    else if IsDiacritic(s[0]) then RemoveDiacritics(s[1..])
    else
      var rest := RemoveDiacritics(s[1..]);
      assert ([s[0]] + rest)[1..] == rest;
      [s[0]] + rest
  }

  /** Stage 1 deletes nothing but diacritics: every other character occurs in the output
      as often as in the input. */
  lemma {:induction false} RemoveDiacriticsKeepsOthers(s: string, c: char)
    requires !IsDiacritic(c)
    ensures multiset(RemoveDiacritics(s))[c] == multiset(s)[c]
  {
    if s != [] {
      assert s == [s[0]] + s[1..];
      RemoveDiacriticsKeepsOthers(s[1..], c);
    }
  }

  /** Text without diacritics passes stage 1 unchanged. */
  lemma {:induction false} RemoveDiacriticsIdentity(s: string)
    requires DiacriticFree(s)
    ensures RemoveDiacritics(s) == s
  {
    if s != [] {
      RemoveDiacriticsIdentity(s[1..]);
    }
  }

  // ---------------------------------------------------------------------------
  // Stage 2: collapse whitespace runs
  // ---------------------------------------------------------------------------

  /** Where the run of whitespace that starts at index `i` of `s` ends. */
  function SpaceRunEnd(s: string, i: nat): (e: nat)
    requires i <= |s|
    ensures i <= e <= |s|
    ensures forall j :: i <= j < e ==> IsSpace(s[j])
    ensures e < |s| ==> !IsSpace(s[e])
    decreases |s| - i
  {
    if i < |s| && IsSpace(s[i]) then SpaceRunEnd(s, i + 1) else i
  }

  /** Deleting leading whitespace keeps the non-whitespace characters. */
  lemma {:induction false} NonSpacesSkipSpaces(s: string, k: nat)
    requires k <= |s|
    requires forall i :: 0 <= i < k ==> IsSpace(s[i])
    ensures NonSpaces(s[k..]) == NonSpaces(s)
  {
    if k > 0 {
      assert s[1..][k - 1..] == s[k..];
      NonSpacesSkipSpaces(s[1..], k - 1);
    }
  }

  /** `re.sub(r'\s+', ' ', s)`: every maximal run of whitespace becomes one ' '. */
  function CollapseWhitespace(s: string): (r: string)
    ensures OnlyPlainSpaces(r) && NoAdjacentSpaces(r)
    ensures NonSpaces(r) == NonSpaces(s)
    ensures Embeds(r, s)
    ensures (r == []) == (s == [])
    ensures r != [] ==> (IsSpace(r[0]) <==> IsSpace(s[0]))
    decreases |s|
  {
    if s == [] then []
    else if IsSpace(s[0]) then
      var k := SpaceRunEnd(s, 0);
      var rest := CollapseWhitespace(s[k..]);
      NonSpacesSkipSpaces(s, k);
      assert s[1..][k - 1..] == s[k..];
      EmbedsDropLeft(rest, s[1..], k - 1);
      assert ([' '] + rest)[1..] == rest;
      [' '] + rest
    else
      var rest := CollapseWhitespace(s[1..]);
      assert ([s[0]] + rest)[1..] == rest;
      [s[0]] + rest
  }

  /** Stage 2 keeps every word: each whitespace run, inner or outer, survives as one ' ',
      so no two words merge. */
  lemma {:induction false} CollapseWhitespaceWords(s: string)
    ensures Words(CollapseWhitespace(s)) == Words(s)
    decreases |s|
  {
    if s != [] {
      var r := CollapseWhitespace(s);
      if IsSpace(s[0]) {
        var k := SpaceRunEnd(s, 0);
        CollapseWhitespaceWords(s[k..]);
        WordsSkipSpaces(s, k);
        assert r[1..] == CollapseWhitespace(s[k..]);
      } else {
        var rest := CollapseWhitespace(s[1..]);
        CollapseWhitespaceWords(s[1..]);
        assert r == [s[0]] + rest;
        assert s == [s[0]] + s[1..];
        WordsCons(s[0], rest);
        WordsCons(s[0], s[1..]);
      }
    }
  }

  /** Stage 2 ends with whitespace exactly when its input does. */
  lemma {:induction false} CollapseWhitespaceLast(s: string)
    ensures var r := CollapseWhitespace(s);
      r != [] ==> (IsSpace(r[|r| - 1]) <==> IsSpace(s[|s| - 1]))
    decreases |s|
  {
    if s != [] {
      var r := CollapseWhitespace(s);
      var k := if IsSpace(s[0]) then SpaceRunEnd(s, 0) else 1;
      var rest := CollapseWhitespace(s[k..]);
      CollapseWhitespaceLast(s[k..]);
      assert r[1..] == rest;
      if rest != [] {
        assert r[|r| - 1] == rest[|rest| - 1];
        assert s[k..][|s[k..]| - 1] == s[|s| - 1];
      }
    }
  }

  /** Text whose only whitespace is single ' ' characters passes stage 2 unchanged. */
  lemma {:induction false} CollapseWhitespaceIdentity(s: string)
    requires OnlyPlainSpaces(s) && NoAdjacentSpaces(s)
    ensures CollapseWhitespace(s) == s
  {
    if s != [] {
      assert OnlyPlainSpaces(s[1..]) && NoAdjacentSpaces(s[1..]) by {
        forall i | 0 <= i && i + 1 < |s[1..]|
          ensures !(IsSpace(s[1..][i]) && IsSpace(s[1..][i + 1]))
        {
          assert s[1..][i] == s[i + 1] && s[1..][i + 1] == s[i + 2];
        }
      }
      if IsSpace(s[0]) {
        assert SpaceRunEnd(s, 1) == 1;
        assert SpaceRunEnd(s, 0) == 1;
      }
      CollapseWhitespaceIdentity(s[1..]);
    }
  }

  // ---------------------------------------------------------------------------
  // Stage 3: strip
  // ---------------------------------------------------------------------------

  /** Where the run of whitespace that ends just before index `j` of `s` starts. */
  function SpaceRunStart(s: string, j: nat): (b: nat)
    requires j <= |s|
    ensures b <= j
    ensures forall i :: b <= i < j ==> IsSpace(s[i])
    ensures 0 < b ==> !IsSpace(s[b - 1])
  {
    if 0 < j && IsSpace(s[j - 1]) then SpaceRunStart(s, j - 1) else j
  }

  /** `s.strip()`: the slice of `s` between its leading and its trailing whitespace. */
  function Strip(s: string): (r: string)
    ensures SpaceRunEnd(s, 0) + |r| <= |s|
    ensures r == s[SpaceRunEnd(s, 0)..SpaceRunEnd(s, 0) + |r|]
    ensures forall i :: SpaceRunEnd(s, 0) + |r| <= i < |s| ==> IsSpace(s[i])
    ensures NoOuterSpaces(r)
  {
    var a := SpaceRunEnd(s, 0);
    var b := SpaceRunStart(s, |s|);
    if a < b then s[a..b] else []
  }

  lemma StripEmbeds(s: string)
    ensures Embeds(Strip(s), s)
  {
    var a := SpaceRunEnd(s, 0);
    EmbedsSlice(s, a, a + |Strip(s)|);
  }

  /** Stripping keeps every word. */
  lemma StripWords(s: string)
    ensures Words(Strip(s)) == Words(s)
  {
    var a := SpaceRunEnd(s, 0);
    WordsOfTrimmed(s, a, a + |Strip(s)|);
  }

  /** Cutting whitespace off both ends keeps the words. */
  lemma WordsOfTrimmed(s: string, a: nat, b: nat)
    requires a <= b <= |s|
    requires forall i :: 0 <= i < a ==> IsSpace(s[i])
    requires forall i :: b <= i < |s| ==> IsSpace(s[i])
    ensures Words(s[a..b]) == Words(s)
  {
    WordsSkipSpaces(s, a);
    SliceSplit(s, a, b);
    forall i | 0 <= i < |s[b..]|
      ensures IsSpace(s[b..][i])
    {
      assert s[b..][i] == s[b + i];
    }
    WordsTrailingSpaces(s[a..b], s[b..]);
  }

  /** The text from `a` on is its part up to `b` followed by the rest. */
  lemma SliceSplit(s: string, a: nat, b: nat)
    requires a <= b <= |s|
    ensures s[a..] == s[a..b] + s[b..]
  {
  }

  /** A slice keeps the whitespace shape of the text it is cut from. */
  lemma SliceKeepsSpacing(s: string, a: nat, b: nat)
    requires a <= b <= |s|
    requires OnlyPlainSpaces(s) && NoAdjacentSpaces(s)
    ensures OnlyPlainSpaces(s[a..b]) && NoAdjacentSpaces(s[a..b])
  {
    var t := s[a..b];
    forall i | 0 <= i && i + 1 < |t|
      ensures !(IsSpace(t[i]) && IsSpace(t[i + 1]))
    {
      assert t[i] == s[a + i] && t[i + 1] == s[a + i + 1];
    }
  }

  // ---------------------------------------------------------------------------
  // Stage 4: remove `^\d+\s+` in multi-line mode
  // ---------------------------------------------------------------------------

  /** Where the run of `isDigit` characters that starts at index `i` of `s` ends. */
  function DigitRunEnd(s: string, i: nat, isDigit: char -> bool): (e: nat)
    requires i <= |s|
    ensures i <= e <= |s|
    ensures forall j :: i <= j < e ==> isDigit(s[j])
    ensures e < |s| ==> !isDigit(s[e])
    decreases |s| - i
  {
    if i < |s| && isDigit(s[i]) then DigitRunEnd(s, i + 1, isDigit) else i
  }

  /** `s[..m]` is a match of `\d+\s+` whose digits are `s[..d]`. */
  ghost predicate IsNumberPrefix(s: string, isDigit: char -> bool, d: nat, m: nat)
  {
    0 < d < m <= |s| &&
    (forall i :: 0 <= i < d ==> isDigit(s[i])) &&
    (forall i :: d <= i < m ==> IsSpace(s[i]))
  }

  /** Because digits are not whitespace, every match of `\d+\s+` at the front of `s` has
      the whole leading digit run as its digits and lies within the whitespace after it. */
  lemma NumberPrefixShape(s: string, isDigit: char -> bool)
    requires DigitsAreNotSpaces(isDigit)
    ensures forall d: nat, m: nat :: IsNumberPrefix(s, isDigit, d, m) ==>
      var n := DigitRunEnd(s, 0, isDigit);
      d == n && n < |s| && IsSpace(s[n]) && m <= SpaceRunEnd(s, n)
  {
    var n := DigitRunEnd(s, 0, isDigit);
    forall d: nat, m: nat | IsNumberPrefix(s, isDigit, d, m)
      ensures d == n && n < |s| && IsSpace(s[n]) && m <= SpaceRunEnd(s, n)
    {
      assert IsSpace(s[d]);
      assert !isDigit(s[d]);
      assert d == n;
    }
  }

  /** The length of the match of `\d+\s+` at the front of `s`, 0 when there is none. The
      regex engine's greedy quantifiers pick the longest match. */
  function NumberPrefixLength(s: string, isDigit: char -> bool): (m: nat)
    requires DigitsAreNotSpaces(isDigit)
    ensures m <= |s|
    ensures m > 0 ==> IsNumberPrefix(s, isDigit, DigitRunEnd(s, 0, isDigit), m)
    ensures forall d: nat, m': nat :: IsNumberPrefix(s, isDigit, d, m') ==> m' <= m
    ensures 0 < m < |s| ==> !IsSpace(s[m])
  {
    NumberPrefixShape(s, isDigit);
    var d := DigitRunEnd(s, 0, isDigit);
    if 0 < d < |s| && IsSpace(s[d]) then SpaceRunEnd(s, d) else 0
  }

  /** `re.sub(r'^\d+\s+', '', s, flags=re.MULTILINE)` on the text that follows the
      part already scanned; `atLineStart` says whether `^` matches at the front of `s`
      (the scan is at the start of the text or just after a newline). */
  function RemoveLineNumbers(s: string, isDigit: char -> bool, atLineStart: bool): (r: string)
    requires DigitsAreNotSpaces(isDigit)
    ensures Embeds(r, s)
    decreases |s|
  {
    if s == [] then []
    else if atLineStart && NumberPrefixLength(s, isDigit) > 0 then
      var m := NumberPrefixLength(s, isDigit);
      var r := RemoveLineNumbers(s[m..], isDigit, s[m - 1] == '\n');
      EmbedsDropLeft(r, s, m);
      r
    else
      var rest := RemoveLineNumbers(s[1..], isDigit, s[0] == '\n');
      assert ([s[0]] + rest)[1..] == rest;
      [s[0]] + rest
  }

  /** Away from a line start, a text without newlines contains no match. */
  lemma {:induction false} RemoveLineNumbersMidLine(s: string, isDigit: char -> bool)
    requires DigitsAreNotSpaces(isDigit)
    requires '\n' !in s
    ensures RemoveLineNumbers(s, isDigit, false) == s
  {
    if s != [] {
      assert s[0] != '\n';
      RemoveLineNumbersMidLine(s[1..], isDigit);
    }
  }

  /** In a text without newlines only position 0 is a line start, so at most one
      number prefix, the longest one, is removed. */
  lemma RemoveLineNumbersSingleLine(s: string, isDigit: char -> bool)
    requires DigitsAreNotSpaces(isDigit)
    requires '\n' !in s
    ensures RemoveLineNumbers(s, isDigit, true) == s[NumberPrefixLength(s, isDigit)..]
  {
    if s != [] {
      var m := NumberPrefixLength(s, isDigit);
      if m > 0 {
        assert s[m - 1] != '\n';
        assert forall j :: 0 <= j < |s[m..]| ==> s[m..][j] == s[m + j];
        assert '\n' !in s[m..];
        RemoveLineNumbersMidLine(s[m..], isDigit);
      } else {
        assert s[0] != '\n';
        RemoveLineNumbersMidLine(s[1..], isDigit);
      }
    }
  }

  /** Text whose whitespace is all ' ' has no newline. */
  lemma PlainSpacesHaveNoNewline(s: string)
    requires OnlyPlainSpaces(s)
    ensures '\n' !in s
  {
    if '\n' in s {
      var j :| 0 <= j < |s| && s[j] == '\n';
      assert IsSpace(s[j]);
    }
  }

  // ---------------------------------------------------------------------------
  // basic_clean
  // ---------------------------------------------------------------------------

  /** The text `basic_clean` hands to its last stage. */
  function StrippedText(text: string): (s: string)
    ensures DiacriticFree(s) && OnlyPlainSpaces(s) && NoAdjacentSpaces(s) && NoOuterSpaces(s)
    ensures Embeds(s, RemoveDiacritics(text))
  {
    var d := RemoveDiacritics(text);
    var c := CollapseWhitespace(d);
    var s := Strip(c);
    var a := SpaceRunEnd(c, 0);
    StripEmbeds(c);
    SliceKeepsSpacing(c, a, a + |s|);
    EmbedsTransitive(s, c, d);
    EmbedsDiacriticFree(s, d);
    s
  }

  /** The first three stages keep the words of the diacritic-free text. */
  lemma StrippedTextWords(text: string)
    ensures Words(StrippedText(text)) == Words(RemoveDiacritics(text))
  {
    var d := RemoveDiacritics(text);
    CollapseWhitespaceWords(d);
    StripWords(CollapseWhitespace(d));
  }

  /** Every character of `word` is a digit. */
  predicate AllDigits(word: string, isDigit: char -> bool)
  {
    forall i :: 0 <= i < |word| ==> isDigit(word[i])
  }

  /** The words the last stage leaves of single-spaced text: a first word made of digits
      goes when another word follows it (the `\s+` of the pattern needs the space before
      that word). */
  function DropNumberWord(ws: seq<string>, isDigit: char -> bool): seq<string>
  {
    if |ws| >= 2 && AllDigits(ws[0], isDigit) then ws[1..] else ws
  }

  /** When single-spaced text has a number prefix, it is the first word and the space
      after it, and another word follows. */
  lemma NumberPrefixIsFirstWord(s: string, isDigit: char -> bool)
    requires DigitsAreNotSpaces(isDigit)
    requires SingleSpaced(s)
    requires NumberPrefixLength(s, isDigit) > 0
    ensures var w := Words(s);
      |w| >= 2 && AllDigits(w[0], isDigit) && Words(s[NumberPrefixLength(s, isDigit)..]) == w[1..]
  {
    var m := NumberPrefixLength(s, isDigit);
    var d := DigitRunEnd(s, 0, isDigit);
    assert IsNumberPrefix(s, isDigit, d, m);
    assert !IsSpace(s[0]);
    WordEndUnique(s, 0, d);
    assert Words(s) == [s[..d]] + Words(s[d..]);
    assert s[d..][1..] == s[m..];
    WordsSkipSpaces(s[d..], 1);
    assert m < |s| && !IsSpace(s[m]);
    assert Words(s[m..]) != [];
  }

  /** Single-spaced text that starts with a word of digits that another word follows has a
      number prefix. */
  lemma NumberWordIsNumberPrefix(s: string, isDigit: char -> bool)
    requires DigitsAreNotSpaces(isDigit)
    requires SingleSpaced(s)
    requires |Words(s)| >= 2 && AllDigits(Words(s)[0], isDigit)
    ensures NumberPrefixLength(s, isDigit) > 0
  {
    var e := WordEnd(s, 0);
    assert !IsSpace(s[0]);
    assert Words(s) == [s[..e]] + Words(s[e..]);
    assert s[e..] != [];
    assert forall i :: 0 <= i < e ==> s[..e][i] == s[i];
    var d := DigitRunEnd(s, 0, isDigit);
    assert !isDigit(s[e]);
    assert d == e;
    assert IsNumberPrefix(s, isDigit, e, e + 1);
  }

  /** On single-spaced text, removing the number prefix removes exactly the first word when
      it is all digits and not the last word, and nothing else. */
  lemma NumberPrefixWords(s: string, isDigit: char -> bool)
    requires DigitsAreNotSpaces(isDigit)
    requires SingleSpaced(s)
    ensures Words(s[NumberPrefixLength(s, isDigit)..]) == DropNumberWord(Words(s), isDigit)
  {
    if NumberPrefixLength(s, isDigit) > 0 {
      NumberPrefixIsFirstWord(s, isDigit);
    } else {
      if |Words(s)| >= 2 && AllDigits(Words(s)[0], isDigit) {
        NumberWordIsNumberPrefix(s, isDigit);
      }
      assert s[0..] == s;
    }
  }

  /** The last stage removes at most one prefix from text of the shape `StrippedText`
      gives, and keeps that shape. */
  lemma RemoveLineNumbersOfStripped(s: string, isDigit: char -> bool)
    requires DigitsAreNotSpaces(isDigit)
    requires DiacriticFree(s) && OnlyPlainSpaces(s) && NoAdjacentSpaces(s) && NoOuterSpaces(s)
    ensures var r := RemoveLineNumbers(s, isDigit, true);
      r == s[NumberPrefixLength(s, isDigit)..] &&
      DiacriticFree(r) && OnlyPlainSpaces(r) && NoAdjacentSpaces(r) && NoOuterSpaces(r)
  {
    var m := NumberPrefixLength(s, isDigit);
    PlainSpacesHaveNoNewline(s);
    RemoveLineNumbersSingleLine(s, isDigit);
    SliceKeepsSpacing(s, m, |s|);
    assert forall i :: 0 <= i < |s[m..]| ==> s[m..][i] == s[m + i];
  }

  /** `ArabicTextPreprocessing.basic_clean`: diacritics deleted, whitespace runs collapsed
      to ' ', the ends stripped, then a leading `digits whitespace` prefix removed. */
  function BasicClean(text: string, isDigit: char -> bool): (r: string)
    requires DigitsAreNotSpaces(isDigit)
    ensures DiacriticFree(r)
    ensures OnlyPlainSpaces(r) && NoAdjacentSpaces(r) && NoOuterSpaces(r)
    ensures Embeds(r, text) && |r| <= |text|
  {
    var s := StrippedText(text);
    var r := RemoveLineNumbers(s, isDigit, true);
    RemoveLineNumbersOfStripped(s, isDigit);
    EmbedsTransitive(r, s, RemoveDiacritics(text));
    EmbedsTransitive(r, RemoveDiacritics(text), text);
    EmbedsLength(r, text);
    r
  }

  /** At most one number prefix is removed: the output is the stripped, collapsed,
      diacritic-free text minus its longest leading `\d+\s+` match, if it has one. */
  lemma BasicCleanRemovesOnePrefix(text: string, isDigit: char -> bool)
    requires DigitsAreNotSpaces(isDigit)
    ensures var s := StrippedText(text);
      var m := NumberPrefixLength(s, isDigit);
      BasicClean(text, isDigit) == s[m..] &&
      (m > 0 ==> IsNumberPrefix(s, isDigit, DigitRunEnd(s, 0, isDigit), m))
  {
    RemoveLineNumbersOfStripped(StrippedText(text), isDigit);
  }

  /** What text survives `basic_clean`: the words of the diacritic-free input, less a
      leading word of digits that another word follows, joined by single spaces. */
  lemma BasicCleanWords(text: string, isDigit: char -> bool)
    requires DigitsAreNotSpaces(isDigit)
    ensures var ws := DropNumberWord(Words(RemoveDiacritics(text)), isDigit);
      Words(BasicClean(text, isDigit)) == ws && BasicClean(text, isDigit) == Unwords(ws)
  {
    var s := StrippedText(text);
    BasicCleanRemovesOnePrefix(text, isDigit);
    StrippedTextWords(text);
    NumberPrefixWords(s, isDigit);
    SingleSpacedIsUnwords(BasicClean(text, isDigit));
  }

  /** Text that already has the cleaned shape loses only its number prefix. */
  lemma BasicCleanOfCleanShape(s: string, isDigit: char -> bool)
    requires DigitsAreNotSpaces(isDigit)
    requires DiacriticFree(s) && OnlyPlainSpaces(s) && NoAdjacentSpaces(s) && NoOuterSpaces(s)
    ensures BasicClean(s, isDigit) == s[NumberPrefixLength(s, isDigit)..]
  {
    RemoveDiacriticsIdentity(s);
    CollapseWhitespaceIdentity(s);
    assert SpaceRunEnd(s, 0) == 0;
    assert StrippedText(s) == s;
    BasicCleanRemovesOnePrefix(s, isDigit);
  }

  /** The `strip()` the page filter applies to cleaned text changes nothing. */
  lemma StripOfCleanIsIdentity(text: string, isDigit: char -> bool)
    requires DigitsAreNotSpaces(isDigit)
    ensures Strip(BasicClean(text, isDigit)) == BasicClean(text, isDigit)
  {
    var r := BasicClean(text, isDigit);
    assert SpaceRunEnd(r, 0) == 0;
  }

  /** Cleaning cleaned text again changes it exactly when it begins with another
      number prefix. */
  lemma BasicCleanIdempotentIff(text: string, isDigit: char -> bool)
    requires DigitsAreNotSpaces(isDigit)
    ensures var r := BasicClean(text, isDigit);
      BasicClean(r, isDigit) == r <==> NumberPrefixLength(r, isDigit) == 0
  {
    BasicCleanOfCleanShape(BasicClean(text, isDigit), isDigit);
  }

  /** Putting "d " in front of clean text, `d` a digit, keeps the cleaned shape. */
  lemma NumberedLineShape(d: char, t: string, isDigit: char -> bool)
    requires DigitsAreNotSpaces(isDigit)
    requires isDigit(d) && !IsDiacritic(d)
    requires t != []
    requires DiacriticFree(t) && OnlyPlainSpaces(t) && NoAdjacentSpaces(t) && NoOuterSpaces(t)
    ensures var s := [d, ' '] + t;
      DiacriticFree(s) && OnlyPlainSpaces(s) && NoAdjacentSpaces(s) && NoOuterSpaces(s)
  {
    var s := [d, ' '] + t;
    assert forall i :: 2 <= i < |s| ==> s[i] == t[i - 2];
    assert !IsSpace(s[0]);
  }

  /** A line "d t", with `d` one digit and `t` already clean, cleans to `t`. */
  lemma BasicCleanDropsNumber(d: char, t: string, isDigit: char -> bool)
    requires DigitsAreNotSpaces(isDigit)
    requires isDigit(d) && !IsDiacritic(d)
    requires t != []
    requires DiacriticFree(t) && OnlyPlainSpaces(t) && NoAdjacentSpaces(t) && NoOuterSpaces(t)
    ensures BasicClean([d, ' '] + t, isDigit) == t
  {
    var s := [d, ' '] + t;
    assert s[1..] == [' '] + t;
    assert s[2..] == t;
    assert s[1..][1..] == t;
    assert DigitRunEnd(s, 1, isDigit) == 1;
    assert DigitRunEnd(s, 0, isDigit) == 1;
    assert SpaceRunEnd(s, 2) == 2;
    assert SpaceRunEnd(s, 1) == 2;
    assert NumberPrefixLength(s, isDigit) == 2;
    NumberedLineShape(d, t, isDigit);
    BasicCleanOfCleanShape(s, isDigit);
  }

  /** `basic_clean` is not idempotent: a text "p q t" with two leading numbers, such as
      "1 2 x", cleans to "q t", and cleaning that again gives "t". */
  lemma BasicCleanNotIdempotent(p: char, q: char, t: string, isDigit: char -> bool)
    requires DigitsAreNotSpaces(isDigit)
    requires isDigit(p) && !IsDiacritic(p) && isDigit(q) && !IsDiacritic(q)
    requires t != []
    requires DiacriticFree(t) && OnlyPlainSpaces(t) && NoAdjacentSpaces(t) && NoOuterSpaces(t)
    ensures BasicClean([p, ' ', q, ' '] + t, isDigit) == [q, ' '] + t
    ensures BasicClean([q, ' '] + t, isDigit) == t
  {
    var u := [q, ' '] + t;
    assert [p, ' ', q, ' '] + t == [p, ' '] + u;
    assert BasicClean([p, ' '] + u, isDigit) == u by {
      NumberedLineShape(q, t, isDigit);
      BasicCleanDropsNumber(p, u, isDigit);
    }
    assert BasicClean(u, isDigit) == t by {
      BasicCleanDropsNumber(q, t, isDigit);
    }
  }
}
