/**
 * String operations shared by both programs: substring search (Python's `in`,
 * JavaScript's `includes`), JavaScript whitespace, `trim`, and the three
 * regular-expression replacements used to clean titles (`<[^>]*>`, a literal
 * entity, and `\s+`), each written out as an explicit function.
 */
module Text {

  /** `sub` occurs in `s` starting at position `i`. */
  predicate OccursAt(s: string, sub: string, i: nat) {
    i + |sub| <= |s| && s[i..i + |sub|] == sub
  }

  /** Substring test: Python's `sub in s` and JavaScript's `s.includes(sub)`. */
  function Contains(s: string, sub: string): (b: bool)
    ensures b <==> exists i: nat :: OccursAt(s, sub, i)
  {
    if sub <= s then
      assert OccursAt(s, sub, 0);
      true
    else if s == [] then
      assert forall i: nat :: !OccursAt(s, sub, i);
      false
    else
      ShiftOccurrence(s, sub);
      Contains(s[1..], sub)
  }

  /** Occurrences in `s[1..]` are the occurrences in `s` after position 0. */
  lemma ShiftOccurrence(s: string, sub: string)
    requires s != [] && !(sub <= s)
    ensures (exists i: nat :: OccursAt(s, sub, i)) <==> (exists i: nat :: OccursAt(s[1..], sub, i))
  {
    forall i: nat ensures OccursAt(s, sub, i + 1) <==> OccursAt(s[1..], sub, i) {
      if i + 1 + |sub| <= |s| {
        assert s[i + 1..i + 1 + |sub|] == s[1..][i..i + |sub|];
      }
    }
    if exists i: nat :: OccursAt(s, sub, i) {
      var i: nat :| OccursAt(s, sub, i);
      if i == 0 {
        assert false;
      }
      assert OccursAt(s[1..], sub, i - 1);
    }
  }

  /**
   * JavaScript whitespace: the characters matched by `\s` and removed by
   * `String.prototype.trim` (WhiteSpace and LineTerminator of ECMA-262).
   */
  predicate IsSpace(c: char) {
    c == ' ' || c == '\t' || c == '\n' || c == '\r' || c == '\U{000B}' || c == '\U{000C}'
    || c == '\U{00A0}' || c == '\U{1680}' || ('\U{2000}' <= c <= '\U{200A}')
    || c == '\U{2028}' || c == '\U{2029}' || c == '\U{202F}' || c == '\U{205F}'
    || c == '\U{3000}' || c == '\U{FEFF}'
  }

  predicate AllSpace(s: string) {
    forall i :: 0 <= i < |s| ==> IsSpace(s[i])
  }

  /** No whitespace character is followed directly by another. */
  predicate NoDoubleSpace(s: string) {
    forall i :: 0 <= i < |s| - 1 ==> !(IsSpace(s[i]) && IsSpace(s[i + 1]))
  }

  /** Neither the first nor the last character is whitespace. */
  predicate NoOuterSpace(s: string) {
    s == [] || (!IsSpace(s[0]) && !IsSpace(s[|s| - 1]))
  }

  /** The non-whitespace characters of `s`, in order. */
  function NonSpace(s: string): string {
    if s == [] then [] else (if IsSpace(s[0]) then [] else [s[0]]) + NonSpace(s[1..])
  }

  lemma {:induction false} NonSpaceAppend(a: string, b: string)
    ensures NonSpace(a + b) == NonSpace(a) + NonSpace(b)
  {
    if a != [] {
      assert (a + b)[0] == a[0];
      assert (a + b)[1..] == a[1..] + b;
      NonSpaceAppend(a[1..], b);
    } else {
      assert a + b == b;
    }
  }

  /** `s` without its leading whitespace. */
  function TrimStart(s: string): (r: string)
    ensures |r| <= |s|
  {
    if s != [] && IsSpace(s[0]) then TrimStart(s[1..]) else s
  }

  /** `TrimStart(s)` is a suffix of `s`, and what it cuts off is whitespace. */
  lemma {:induction false} TrimStartSuffix(s: string)
    ensures TrimStart(s) == s[|s| - |TrimStart(s)|..]
    ensures AllSpace(s[..|s| - |TrimStart(s)|])
  {
    if s != [] && IsSpace(s[0]) {
      TrimStartSuffix(s[1..]);
      var r := TrimStart(s[1..]);
      assert s[|s| - |r|..] == s[1..][|s| - 1 - |r|..];
      assert s[..|s| - |r|] == [s[0]] + s[1..][..|s| - 1 - |r|];
    }
  }

  /** `TrimStart(s)` begins with non-whitespace, and is empty exactly when `s` is all whitespace. */
  lemma {:induction false} TrimStartHead(s: string)
    ensures TrimStart(s) == [] || !IsSpace(TrimStart(s)[0])
    ensures TrimStart(s) == [] <==> AllSpace(s)
  {
    if s != [] && IsSpace(s[0]) {
      TrimStartHead(s[1..]);
      assert AllSpace(s) <==> AllSpace(s[1..]) by {
        if AllSpace(s[1..]) {
          forall i | 0 <= i < |s| ensures IsSpace(s[i]) {
            if i > 0 { assert s[i] == s[1..][i - 1]; }
          }
        }
      }
    } else {
      assert s != [] ==> !AllSpace(s);
    }
  }

  /** `TrimStart(s)` keeps every non-whitespace character. */
  lemma {:induction false} TrimStartNonSpace(s: string)
    ensures NonSpace(TrimStart(s)) == NonSpace(s)
  {
    if s != [] && IsSpace(s[0]) {
      TrimStartNonSpace(s[1..]);
    }
  }

  /** `s` without its trailing whitespace. */
  function TrimEnd(s: string): string {
    if s != [] && IsSpace(s[|s| - 1]) then TrimEnd(s[..|s| - 1]) else s
  }

  /** `TrimEnd(s)` is a prefix of `s`, and what it cuts off is whitespace. */
  lemma {:induction false} TrimEndPrefix(s: string)
    ensures |TrimEnd(s)| <= |s| && TrimEnd(s) == s[..|TrimEnd(s)|]
    ensures AllSpace(s[|TrimEnd(s)|..])
  {
    if s != [] && IsSpace(s[|s| - 1]) {
      TrimEndPrefix(s[..|s| - 1]);
      var r := TrimEnd(s[..|s| - 1]);
      assert s[..|r|] == s[..|s| - 1][..|r|];
      assert s[|r|..] == s[..|s| - 1][|r|..] + [s[|s| - 1]];
    }
  }

  /** `TrimEnd(s)` ends with non-whitespace. */
  lemma {:induction false} TrimEndLast(s: string)
    ensures TrimEnd(s) == [] || !IsSpace(TrimEnd(s)[|TrimEnd(s)| - 1])
  {
    if s != [] && IsSpace(s[|s| - 1]) {
      TrimEndLast(s[..|s| - 1]);
    }
  }

  /** `TrimEnd(s)` keeps every non-whitespace character. */
  lemma {:induction false} TrimEndNonSpace(s: string)
    ensures NonSpace(TrimEnd(s)) == NonSpace(s)
  {
    if s != [] && IsSpace(s[|s| - 1]) {
      TrimEndNonSpace(s[..|s| - 1]);
      assert s == s[..|s| - 1] + [s[|s| - 1]];
      NonSpaceAppend(s[..|s| - 1], [s[|s| - 1]]);
    }
  }

  /** `r` is `s` with the whitespace-only prefix `s[..i]` and some whitespace-only suffix removed. */
  predicate TrimmedAt(s: string, r: string, i: nat) {
    i + |r| <= |s| && s[i..i + |r|] == r && AllSpace(s[..i]) && AllSpace(s[i + |r|..])
  }

  /** JavaScript's `String.prototype.trim`. */
  function Trim(s: string): string {
    TrimEnd(TrimStart(s))
  }

  /** `Trim(s)` is a slice of `s` with only whitespace cut off at either end. */
  lemma TrimSlice(s: string)
    ensures TrimmedAt(s, Trim(s), |s| - |TrimStart(s)|)
  {
    var t := TrimStart(s);
    var r := TrimEnd(t);
    TrimStartSuffix(s);
    TrimEndPrefix(t);
    assert TrimmedAt(s, r, |s| - |t|) by {
      assert s[|s| - |t|..][..|r|] == s[|s| - |t|..|s| - |t| + |r|];
      assert s[|s| - |t| + |r|..] == t[|r|..];
    }
  }

  /** `Trim(s)` begins and ends with non-whitespace. */
  lemma TrimOuter(s: string)
    ensures NoOuterSpace(Trim(s))
  {
    TrimStartHead(s);
    TrimEndPrefix(TrimStart(s));
    TrimEndLast(TrimStart(s));
  }

  /** `Trim(s)` is empty exactly when `s` is all whitespace. */
  lemma TrimEmpty(s: string)
    ensures Trim(s) == [] <==> AllSpace(s)
  {
    var t := TrimStart(s);
    var r := TrimEnd(t);
    TrimStartHead(s);
    TrimEndPrefix(t);
    if r == [] {
      assert AllSpace(t) by { assert t[|r|..] == t; }
    }
  }

  /** `Trim(s)` keeps every non-whitespace character of `s`. */
  lemma TrimNonSpace(s: string)
    ensures NonSpace(Trim(s)) == NonSpace(s)
  {
    TrimStartNonSpace(s);
    TrimEndNonSpace(TrimStart(s));
  }

  /** A slice keeps "no two whitespace characters in a row". */
  lemma SliceNoDoubleSpace(s: string, i: nat, j: nat)
    requires NoDoubleSpace(s) && i <= j <= |s|
    ensures NoDoubleSpace(s[i..j])
  {
    forall k | 0 <= k < j - i - 1 ensures !(IsSpace(s[i..j][k]) && IsSpace(s[i..j][k + 1])) {
      assert s[i..j][k] == s[i + k] && s[i..j][k + 1] == s[i + k + 1];
    }
  }

  /** Every whitespace character of `s` is the plain space. */
  predicate SpacesArePlain(s: string) {
    forall i :: 0 <= i < |s| && IsSpace(s[i]) ==> s[i] == ' '
  }

  /** Trimming keeps "no two whitespace characters in a row". */
  lemma TrimNoDoubleSpace(s: string)
    requires NoDoubleSpace(s)
    ensures NoDoubleSpace(Trim(s))
  {
    TrimSlice(s);
    var i := |s| - |TrimStart(s)|;
    SliceNoDoubleSpace(s, i, i + |Trim(s)|);
  }

  /** Trimming keeps "all whitespace is the plain space". */
  lemma TrimSpacesArePlain(s: string)
    requires SpacesArePlain(s)
    ensures SpacesArePlain(Trim(s))
  {
    TrimSlice(s);
    var r, i := Trim(s), |s| - |TrimStart(s)|;
    assert forall k :: 0 <= k < |r| ==> r[k] == s[i + k];
  }

  /** `s.replace(/\s+/g, ' ')`: every maximal run of whitespace becomes one plain space. */
  function CollapseSpaces(s: string): string
    decreases |s|
  {
    if s == [] then []
    else if IsSpace(s[0]) then " " + CollapseSpaces(TrimStart(s[1..]))
    else [s[0]] + CollapseSpaces(s[1..])
  }

  /**
   * `CollapseSpaces(s)` is empty exactly when `s` is, starts with whitespace
   * exactly when `s` does, has no two whitespace characters in a row, has
   * only plain spaces as whitespace, and keeps every non-whitespace character.
   */
  lemma {:induction false} CollapseSpec(s: string)
    ensures CollapseSpaces(s) == [] <==> s == []
    ensures s != [] ==> (IsSpace(CollapseSpaces(s)[0]) <==> IsSpace(s[0]))
    ensures NoDoubleSpace(CollapseSpaces(s))
    ensures SpacesArePlain(CollapseSpaces(s))
    ensures NonSpace(CollapseSpaces(s)) == NonSpace(s)
    decreases |s|
  {
    if s != [] {
      if IsSpace(s[0]) {
        var t := TrimStart(s[1..]);
        TrimStartHead(s[1..]);
        TrimStartNonSpace(s[1..]);
        CollapseSpec(t);
        var rest := CollapseSpaces(t);
        assert NonSpace(" " + rest) == NonSpace(rest);
        assert NoDoubleSpace(" " + rest) by {
          assert rest != [] ==> !IsSpace(rest[0]);
          forall i | 0 <= i < |rest| ensures (" " + rest)[i + 1] == rest[i] { }
        }
      } else {
        CollapseSpec(s[1..]);
        var rest := CollapseSpaces(s[1..]);
        assert NonSpace([s[0]] + rest) == [s[0]] + NonSpace(rest);
        forall i | 0 <= i < |rest| ensures ([s[0]] + rest)[i + 1] == rest[i] { }
      }
    }
  }

  /** Whitespace in front of text that starts with non-whitespace is all `TrimStart` removes. */
  lemma {:induction false} TrimStartSpaces(w: string, b: string)
    requires AllSpace(w)
    requires b == [] || !IsSpace(b[0])
    ensures TrimStart(w + b) == b
  {
    if w == [] {
      assert w + b == b;
    } else {
      assert (w + b)[0] == w[0];
      assert (w + b)[1..] == w[1..] + b;
      TrimStartSpaces(w[1..], b);
    }
  }

  /** When `x` ends with non-whitespace, `TrimStart` stops inside `x` and keeps its last character. */
  lemma {:induction false} TrimStartKeepsTail(x: string, r: string)
    requires x != [] && !IsSpace(x[|x| - 1])
    ensures TrimStart(x + r) == TrimStart(x) + r
    ensures TrimStart(x) != [] && TrimStart(x)[|TrimStart(x)| - 1] == x[|x| - 1]
  {
    assert (x + r)[0] == x[0];
    if IsSpace(x[0]) {
      assert (x + r)[1..] == x[1..] + r;
      TrimStartKeepsTail(x[1..], r);
    }
  }

  /** When `q` starts with non-whitespace, `TrimEnd` stops inside `q`. */
  lemma {:induction false} TrimEndKeepsHead(p: string, q: string)
    requires q != [] && !IsSpace(q[0])
    ensures TrimEnd(p + q) == p + TrimEnd(q)
    decreases |q|
  {
    var s := p + q;
    assert s[|s| - 1] == q[|q| - 1];
    if IsSpace(q[|q| - 1]) {
      assert s[..|s| - 1] == p + q[..|q| - 1];
      TrimEndKeepsHead(p, q[..|q| - 1]);
    }
  }

  /** Collapsing keeps a final non-whitespace character. */
  lemma {:induction false} CollapseLast(a: string)
    requires a != [] && !IsSpace(a[|a| - 1])
    ensures CollapseSpaces(a) != [] && CollapseSpaces(a)[|CollapseSpaces(a)| - 1] == a[|a| - 1]
    decreases |a|
  {
    if IsSpace(a[0]) {
      TrimStartKeepsTail(a[1..], []);
      assert a[1..] + [] == a[1..];
      CollapseLast(TrimStart(a[1..]));
    } else if |a| > 1 {
      CollapseLast(a[1..]);
    }
  }

  /** Text ending with non-whitespace collapses independently of what follows it. */
  lemma {:induction false} CollapseAppend(a: string, r: string)
    requires a == [] || !IsSpace(a[|a| - 1])
    ensures CollapseSpaces(a + r) == CollapseSpaces(a) + CollapseSpaces(r)
    decreases |a|
  {
    if a == [] {
      assert a + r == r;
    } else {
      assert (a + r)[0] == a[0];
      if IsSpace(a[0]) {
        var x := a[1..];
        assert (a + r)[1..] == x + r;
        TrimStartKeepsTail(x, r);
        CollapseAppend(TrimStart(x), r);
      } else {
        assert (a + r)[1..] == a[1..] + r;
        CollapseAppend(a[1..], r);
      }
    }
  }

  /**
   * A whitespace run between two words becomes exactly one plain space, and
   * the text on either side collapses on its own.
   */
  lemma CollapseRun(a: string, w: string, b: string)
    requires a == [] || !IsSpace(a[|a| - 1])
    requires w != [] && AllSpace(w)
    requires b == [] || !IsSpace(b[0])
    ensures CollapseSpaces(a + w + b) == CollapseSpaces(a) + " " + CollapseSpaces(b)
  {
    var v := w + b;
    assert v[0] == w[0] && v[1..] == w[1..] + b;
    TrimStartSpaces(w[1..], b);
    calc {
      CollapseSpaces(a + w + b);
      { assert a + w + b == a + v; }
      CollapseSpaces(a + v);
      { CollapseAppend(a, v); }
      CollapseSpaces(a) + CollapseSpaces(v);
      CollapseSpaces(a) + (" " + CollapseSpaces(TrimStart(v[1..])));
      CollapseSpaces(a) + " " + CollapseSpaces(b);
    }
  }

  /** Trimming two words joined by one space trims each word on its outer side only. */
  lemma TrimJoin(x: string, y: string)
    requires x != [] && !IsSpace(x[|x| - 1])
    requires y != [] && !IsSpace(y[0])
    ensures Trim(x + " " + y) == Trim(x) + " " + Trim(y)
  {
    assert x + " " + y == x + (" " + y);
    TrimStartKeepsTail(x, " " + y);
    TrimStartKeepsTail(x, []);
    assert x + [] == x;
    var u := TrimStart(x);
    assert u + (" " + y) == (u + " ") + y;
    TrimEndKeepsHead(u + " ", y);
    assert Trim(x) == u;
    assert Trim(y) == TrimEnd(y);
  }

  /**
   * The length of `s` as JavaScript's `length` counts it, in UTF-16 code
   * units: a character outside the Basic Multilingual Plane takes two.
   */
  function Utf16Length(s: string): (n: nat)
    ensures |s| <= n <= 2 * |s|
  {
    if s == [] then 0 else (if s[0] as int > 0xFFFF then 2 else 1) + Utf16Length(s[1..])
  }

  /** `s` has no `<` that is followed, anywhere later, by a `>`. */
  predicate TagFree(s: string) {
    forall i :: 0 <= i < |s| && s[i] == '<' ==> '>' !in s[i + 1..]
  }

  /** The position of the first `c` in `s`. */
  function FirstIndexOf(s: string, c: char): (k: nat)
    requires c in s
    ensures k < |s| && s[k] == c
    ensures forall j :: 0 <= j < k ==> s[j] != c
  {
    if s[0] == c then 0 else 1 + FirstIndexOf(s[1..], c)
  }

  /**
   * `s.replace(/<[^>]*>/g, '')`: scanning left to right, each `<` that has a
   * `>` after it is removed together with everything up to and including the
   * first such `>`; a `<` with no later `>` is kept.
   */
  function StripTags(s: string): string
    decreases |s|
  {
    if s == [] then []
    else if s[0] == '<' && '>' in s then StripTags(s[FirstIndexOf(s, '>') + 1..])
    else [s[0]] + StripTags(s[1..])
  }

  /** Stripping introduces no `>`. */
  lemma {:induction false} StripTagsNoNewClose(s: string)
    ensures '>' in StripTags(s) ==> '>' in s
    decreases |s|
  {
    if s == [] {
    } else if s[0] == '<' && '>' in s {
    } else {
      StripTagsNoNewClose(s[1..]);
      assert StripTags(s) == [s[0]] + StripTags(s[1..]);
      assert '>' in s[1..] ==> '>' in s;
    }
  }

  /** After stripping, no `<` is followed anywhere by a `>`: every tag is gone. */
  lemma {:induction false} StripTagsTagFree(s: string)
    ensures TagFree(StripTags(s))
    decreases |s|
  {
    if s == [] {
    } else if s[0] == '<' && '>' in s {
      StripTagsTagFree(s[FirstIndexOf(s, '>') + 1..]);
    } else {
      var r := StripTags(s[1..]);
      var res := [s[0]] + r;
      assert StripTags(s) == res;
      StripTagsTagFree(s[1..]);
      StripTagsNoNewClose(s[1..]);
      forall i | 0 <= i < |res| && res[i] == '<' ensures '>' !in res[i + 1..] {
        if i == 0 {
          assert res[1..] == r;
          assert '>' in s[1..] ==> '>' in s;
        } else {
          assert res[i] == r[i - 1];
          assert res[i + 1..] == r[i..];
        }
      }
    }
  }

  /** Text with no `<`, or with no `>`, holds no tag and is left as it is. */
  lemma {:induction false} StripTagsUnchanged(s: string)
    requires '<' !in s || '>' !in s
    ensures StripTags(s) == s
    decreases |s|
  {
    if s != [] {
      assert !(s[0] == '<' && '>' in s);
      assert '<' !in s ==> '<' !in s[1..];
      assert '>' !in s ==> '>' !in s[1..];
      StripTagsUnchanged(s[1..]);
      assert s == [s[0]] + s[1..];
    }
  }

  /** The first `c` of `x + [c] + y`, where `x` has no `c`, is at position `|x|`. */
  lemma FirstIndexAfter(x: string, c: char, y: string)
    requires c !in x
    ensures FirstIndexOf(x + [c] + y, c) == |x|
  {
    var s := x + [c] + y;
    var k := FirstIndexOf(s, c);
    assert s[|x|] == c;
    if k < |x| {
      assert false;
    }
  }

  /** A string that starts with a tag loses that tag. */
  lemma StripLeadingTag(t: string, b: string)
    requires '>' !in t
    ensures StripTags(['<'] + t + ['>'] + b) == StripTags(b)
  {
    var s := ['<'] + t + ['>'] + b;
    assert s == (['<'] + t) + ['>'] + b;
    assert s[0] == '<' && s[|t| + 1] == '>';
    FirstIndexAfter(['<'] + t, '>', b);
    assert s[|t| + 2..] == b;
  }

  /** A first character other than `<` is kept. */
  lemma StripKeepsFirst(s: string)
    requires s != [] && s[0] != '<'
    ensures StripTags(s) == [s[0]] + StripTags(s[1..])
  {
  }

  /** Text without `<` passes through unchanged, whatever follows it. */
  lemma {:induction false} StripKeepsPrefix(a: string, u: string)
    requires '<' !in a
    ensures StripTags(a + u) == a + StripTags(u)
  {
    if a == [] {
      assert a + u == u;
    } else {
      var s := a + u;
      assert s[0] == a[0] && s[1..] == a[1..] + u;
      assert '<' !in a[1..];
      StripKeepsPrefix(a[1..], u);
      StripKeepsFirst(s);
      assert a == [a[0]] + a[1..];
    }
  }

  /** A `<`, then text without `>`, then `>` is removed as one tag, provided no `<` comes before it. */
  lemma StripTagsRemovesTag(a: string, t: string, b: string)
    requires '<' !in a && '>' !in t
    ensures StripTags(a + ['<'] + t + ['>'] + b) == a + StripTags(b)
  {
    var u := ['<'] + t + ['>'] + b;
    calc {
      StripTags(a + ['<'] + t + ['>'] + b);
      { assert a + ['<'] + t + ['>'] + b == a + u; }
      StripTags(a + u);
      { StripKeepsPrefix(a, u); }
      a + StripTags(u);
      { StripLeadingTag(t, b); }
      a + StripTags(b);
    }
  }

  /**
   * `s.replace(/pat/g, rep)` for a literal pattern: scanning left to right,
   * each occurrence that does not overlap an earlier replaced one is replaced;
   * the inserted text is not scanned again.
   */
  function ReplaceAll(s: string, pat: string, rep: string): (r: string)
    requires pat != []
    decreases |s|
  {
    if s == [] then []
    else if pat <= s then rep + ReplaceAll(s[|pat|..], pat, rep)
    else [s[0]] + ReplaceAll(s[1..], pat, rep)
  }

  /** Replacing a pattern that does not occur changes nothing. */
  lemma {:induction false} ReplaceAllAbsent(s: string, pat: string, rep: string)
    requires pat != [] && !Contains(s, pat)
    ensures ReplaceAll(s, pat, rep) == s
  {
    if s != [] {
      assert !(pat <= s) by { assert OccursAt(s, pat, 0) ==> Contains(s, pat); }
      ReplaceAllAbsent(s[1..], pat, rep);
    }
  }

  /** A pattern whose first character does not occur in `s` does not occur in it. */
  lemma NoHeadAbsent(s: string, sub: string)
    requires sub != [] && sub[0] !in s
    ensures !Contains(s, sub)
  {
    forall i: nat ensures !OccursAt(s, sub, i) {
      if i + |sub| <= |s| {
        assert s[i..i + |sub|][0] == s[i];
      }
    }
  }

  /** In particular, text without the pattern's first character is left as it is. */
  lemma ReplaceAllNoHead(s: string, pat: string, rep: string)
    requires pat != [] && pat[0] !in s
    ensures ReplaceAll(s, pat, rep) == s
  {
    NoHeadAbsent(s, pat);
    ReplaceAllAbsent(s, pat, rep);
  }

  /** Replacing a pattern by itself changes nothing. */
  lemma {:induction false} ReplaceAllSelf(s: string, pat: string)
    requires pat != []
    ensures ReplaceAll(s, pat, pat) == s
  {
    if s != [] {
      if pat <= s {
        ReplaceAllSelf(s[|pat|..], pat);
        assert s == pat + s[|pat|..];
      } else {
        ReplaceAllSelf(s[1..], pat);
        assert s == [s[0]] + s[1..];
      }
    }
  }

  /** No character of `p` occurs in `q`. */
  predicate Disjoint(p: string, q: string) {
    forall c :: c in p ==> c !in q
  }

  /** Strings without a common character differ in their first characters. */
  lemma DisjointHeads(p: string, q: string)
    ensures p != [] && q != [] && Disjoint(p, q) ==> p[0] != q[0]
  {
    if p != [] && q != [] && Disjoint(p, q) {
      assert p[0] in p;
    }
  }

  /** A prefix made of characters foreign to `rep` survives replacement only if it was there before. */
  lemma {:induction false} PrefixBeforeReplace(q: string, t: string, pat: string, rep: string)
    requires pat != [] && rep != [] && Disjoint(q, rep)
    requires q <= ReplaceAll(t, pat, rep)
    ensures q <= t
    decreases |t|
  {
    if q != [] && t != [] {
      if pat <= t {
        DisjointHeads(q, rep);
        assert false;
      } else {
        var r := ReplaceAll(t[1..], pat, rep);
        assert ReplaceAll(t, pat, rep) == [t[0]] + r;
        assert q[1..] <= r;
        PrefixBeforeReplace(q[1..], t[1..], pat, rep);
        assert q == [q[0]] + q[1..];
      }
    }
  }

  /** Putting characters foreign to `pat` in front of a text cannot create an occurrence of `pat`. */
  lemma {:induction false} ForeignPrefixAddsNothing(w: string, x: string, pat: string)
    requires pat != [] && Disjoint(w, pat) && !Contains(x, pat)
    ensures !Contains(w + x, pat)
    decreases |w|
  {
    if w == [] {
      assert w + x == x;
    } else {
      DisjointHeads(w, pat);
      assert !(pat <= w + x);
      assert (w + x)[1..] == w[1..] + x;
      ForeignPrefixAddsNothing(w[1..], x, pat);
    }
  }

  /**
   * When the replacement shares no character with the pattern, one pass
   * leaves no occurrence of the pattern behind.
   */
  lemma {:induction false} ReplaceAllLeavesNone(s: string, pat: string, rep: string)
    requires pat != [] && rep != [] && Disjoint(rep, pat)
    ensures !Contains(ReplaceAll(s, pat, rep), pat)
    decreases |s|
  {
    if s == [] {
    } else if pat <= s {
      ReplaceAllLeavesNone(s[|pat|..], pat, rep);
      ForeignPrefixAddsNothing(rep, ReplaceAll(s[|pat|..], pat, rep), pat);
    } else {
      var r := ReplaceAll(s[1..], pat, rep);
      var res := [s[0]] + r;
      assert ReplaceAll(s, pat, rep) == res;
      ReplaceAllLeavesNone(s[1..], pat, rep);
      if pat <= res {
        assert pat[1..] <= r;
        assert Disjoint(pat[1..], rep);
        PrefixBeforeReplace(pat[1..], s[1..], pat, rep);
        assert false;
      }
      assert res[1..] == r;
    }
  }
}
