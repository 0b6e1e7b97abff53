/**
 * The fragment of `java.lang.String` behaviour the controllers rely on:
 * `toLowerCase` (restricted to ASCII), `trim`, `replaceAll("\\s+", " ")`,
 * `replace(" ", "")`, `contains`, and `split` with its default limit of zero,
 * including the regular-expression reading of the delimiter.
 */
module JavaText {
  import opened Wrappers
  import opened SeqSearch

  // ---------------------------------------------------------------------------
  // Case
  // ---------------------------------------------------------------------------

  predicate IsUpper(c: char) {
    'A' <= c <= 'Z'
  }

  /** `Character.toLowerCase`, restricted to the ASCII letters. */
  function LowerChar(c: char): char {
    if IsUpper(c) then (c as int + 32) as char else c
  }

  predicate IsLowerCase(s: string) {
    forall i :: 0 <= i < |s| ==> !IsUpper(s[i])
  }

  /** `String.toLowerCase()`: maps every letter to lower case, leaves everything else. */
  function ToLower(s: string): (r: string)
    ensures |r| == |s|
    ensures IsLowerCase(r)
    ensures forall i :: 0 <= i < |s| && !IsUpper(s[i]) ==> r[i] == s[i]
    ensures forall i :: 0 <= i < |s| && IsUpper(s[i]) ==> r[i] as int == s[i] as int + 32
  {
    seq(|s|, i requires 0 <= i < |s| => LowerChar(s[i]))
  }

  /** Lower-casing changes nothing in a string that has no upper-case letter. */
  lemma ToLowerOfLowerCase(s: string)
    requires IsLowerCase(s)
    ensures ToLower(s) == s
  {
  }

  // ---------------------------------------------------------------------------
  // White space
  // ---------------------------------------------------------------------------

  /** A member of the regex class `\s`: space, tab, line feed, vertical tab, form feed, carriage return. */
  predicate IsRegexSpace(c: char) {
    c == ' ' || c == '\t' || c == '\n' || c == '\U{000B}' || c == '\U{000C}' || c == '\r'
  }

  /** A character `String.trim` strips: any code point up to and including U+0020. */
  predicate IsTrimmable(c: char) {
    c <= ' '
  }

  /** The text of `s` with every `\s` character dropped. */
  function WithoutSpaces(s: string): (r: string)
    ensures |r| <= |s|
    ensures forall i :: 0 <= i < |r| ==> !IsRegexSpace(r[i])
  {
    if s == [] then []
    else if IsRegexSpace(s[0]) then WithoutSpaces(s[1..])
    else [s[0]] + WithoutSpaces(s[1..])
  }

  lemma WithoutSpacesAppend(a: string, b: string)
    ensures WithoutSpaces(a + b) == WithoutSpaces(a) + WithoutSpaces(b)
  {
    if a == [] {
      assert a + b == b;
    } else {
      assert (a + b)[0] == a[0];
      assert (a + b)[1..] == a[1..] + b;
      WithoutSpacesAppend(a[1..], b);
    }
  }

  /** No `\s` character other than a plain space, and no two `\s` characters side by side. */
  predicate SpacesCollapsed(s: string) {
    && (forall i :: 0 <= i < |s| && IsRegexSpace(s[i]) ==> s[i] == ' ')
    && (forall i :: 0 < i < |s| && IsRegexSpace(s[i]) ==> !IsRegexSpace(s[i - 1]))
  }

  /** Drops the run of `\s` characters at the front of `s`. */
  function DropSpaceRun(s: string): (r: string)
    ensures |r| <= |s| && r == s[|s| - |r|..]
    ensures r == [] || !IsRegexSpace(r[0])
    ensures forall i :: 0 <= i < |s| - |r| ==> IsRegexSpace(s[i])
  {
    if s != [] && IsRegexSpace(s[0]) then
      var r := DropSpaceRun(s[1..]);
      assert forall i :: 1 <= i < |s| ==> s[i] == s[1..][i - 1];
      r
    else s
  }

  /**
   * `replaceAll("\\s+", " ")`: every maximal run of `\s` characters becomes a
   * single space; the text between the runs is kept as it is.
   */
  function CollapseSpaces(s: string): (r: string)
    ensures |r| == 0 <==> |s| == 0
    ensures |s| > 0 ==> (IsRegexSpace(r[0]) <==> IsRegexSpace(s[0]))
    ensures SpacesCollapsed(r)
    ensures WithoutSpaces(r) == WithoutSpaces(s)
    ensures forall i :: 0 <= i < |r| ==> r[i] == ' ' || r[i] in s
    decreases |s|
  {
    if s == [] then []
    else if IsRegexSpace(s[0]) then
      var rest := DropSpaceRun(s);
      var tail := CollapseSpaces(rest);
      SpaceRunStep(s, rest, tail);
      [' '] + tail
    else
      var tail := CollapseSpaces(s[1..]);
      TextStep(s, tail);
      [s[0]] + tail
  }

  /** One space in place of the leading run, in front of the collapsed rest, meets the collapsing contract. */
  lemma {:induction false} SpaceRunStep(s: string, rest: string, tail: string)
    requires s != [] && IsRegexSpace(s[0]) && rest == DropSpaceRun(s)
    requires |tail| == 0 <==> |rest| == 0
    requires |rest| > 0 ==> (IsRegexSpace(tail[0]) <==> IsRegexSpace(rest[0]))
    requires SpacesCollapsed(tail)
    requires WithoutSpaces(tail) == WithoutSpaces(rest)
    requires forall i :: 0 <= i < |tail| ==> tail[i] == ' ' || tail[i] in rest
    ensures SpacesCollapsed([' '] + tail)
    ensures WithoutSpaces([' '] + tail) == WithoutSpaces(s)
    ensures forall i :: 0 <= i < |[' '] + tail| ==> ([' '] + tail)[i] == ' ' || ([' '] + tail)[i] in s
  {
    DropSpaceRunVanishes(s);
    ConsCollapsed(' ', tail);
    ConsKeepsMembers(' ', tail, s, rest);
  }

  /** The first character, kept, in front of the collapsed rest meets the collapsing contract. */
  lemma {:induction false} TextStep(s: string, tail: string)
    requires s != [] && !IsRegexSpace(s[0])
    requires |tail| == 0 <==> |s| == 1
    requires |s| > 1 ==> (IsRegexSpace(tail[0]) <==> IsRegexSpace(s[1]))
    requires SpacesCollapsed(tail)
    requires WithoutSpaces(tail) == WithoutSpaces(s[1..])
    requires forall i :: 0 <= i < |tail| ==> tail[i] == ' ' || tail[i] in s[1..]
    ensures SpacesCollapsed([s[0]] + tail)
    ensures WithoutSpaces([s[0]] + tail) == WithoutSpaces(s)
    ensures forall i :: 0 <= i < |[s[0]] + tail| ==> ([s[0]] + tail)[i] == ' ' || ([s[0]] + tail)[i] in s
  {
    ConsCollapsed(s[0], tail);
    ConsKeepsMembers(s[0], tail, s, s[1..]);
    assert s == [s[0]] + s[1..];
  }

  /** A character in front of a collapsed string keeps it collapsed unless it starts a second space. */
  lemma ConsCollapsed(c: char, tail: string)
    requires SpacesCollapsed(tail)
    requires IsRegexSpace(c) ==> c == ' ' && (tail == [] || !IsRegexSpace(tail[0]))
    ensures SpacesCollapsed([c] + tail)
    ensures WithoutSpaces([c] + tail) == if IsRegexSpace(c) then WithoutSpaces(tail) else [c] + WithoutSpaces(tail)
  {
    var r := [c] + tail;
    assert r[1..] == tail;
    forall i | 0 < i < |r|
      ensures r[i] == tail[i - 1]
    {
    }
  }

  /** `[c] + tail` draws its characters from `s` (or is a space) when `tail` draws from a suffix of `s`. */
  lemma ConsKeepsMembers(c: char, tail: string, s: string, rest: string)
    requires c == ' ' || c in s
    requires |rest| <= |s| && rest == s[|s| - |rest|..]
    requires forall i :: 0 <= i < |tail| ==> tail[i] == ' ' || tail[i] in rest
    ensures forall i :: 0 <= i < |tail| + 1 ==> ([c] + tail)[i] == ' ' || ([c] + tail)[i] in s
  {
    forall i | 0 < i < |tail| + 1
      ensures ([c] + tail)[i] == ' ' || ([c] + tail)[i] in s
    {
      assert ([c] + tail)[i] == tail[i - 1];
      if tail[i - 1] != ' ' {
        var j :| 0 <= j < |rest| && rest[j] == tail[i - 1];
        assert rest[j] == s[|s| - |rest| + j];
      }
    }
  }

  /** Dropping a leading run of white space does not change the non-space text. */
  lemma DropSpaceRunVanishes(s: string)
    ensures WithoutSpaces(DropSpaceRun(s)) == WithoutSpaces(s)
  {
    var rest := DropSpaceRun(s);
    var run := s[..|s| - |rest|];
    assert s == run + rest;
    WithoutSpacesAppend(run, rest);
    SpaceRunVanishes(run);
  }

  lemma SpaceRunVanishes(s: string)
    requires forall i :: 0 <= i < |s| ==> IsRegexSpace(s[i])
    ensures WithoutSpaces(s) == []
  {
  }

  /** A leading run of white space followed by non-space text is dropped in full. */
  lemma {:induction false} DropWholeRun(w: string, y: string)
    requires forall i :: 0 <= i < |w| ==> IsRegexSpace(w[i])
    requires y == [] || !IsRegexSpace(y[0])
    ensures DropSpaceRun(w + y) == y
    decreases |w|
  {
    if w != [] {
      HeadOfConcat(w, y);
      DropWholeRun(w[1..], y);
    } else {
      Assoc(w, y, []);
    }
  }

  /** A leading run of white space that ends inside `x` is dropped from `x` alone. */
  lemma {:induction false} DropRunWithin(x: string, z: string)
    requires x != [] && !IsRegexSpace(x[|x| - 1])
    ensures DropSpaceRun(x + z) == DropSpaceRun(x) + z
    decreases |x|
  {
    HeadOfConcat(x, z);
    if IsRegexSpace(x[0]) {
      assert |x| > 1;
      DropRunWithin(x[1..], z);
    }
  }

  /** A string that ends in non-space text keeps that end when its leading run is dropped. */
  lemma {:induction false} DropRunKeepsLast(x: string)
    requires x != [] && !IsRegexSpace(x[|x| - 1])
    ensures DropSpaceRun(x) != [] && !IsRegexSpace(DropSpaceRun(x)[|DropSpaceRun(x)| - 1])
  {
    var r := DropSpaceRun(x);
    if r != [] {
      assert r[|r| - 1] == x[|x| - 1];
    }
  }

  /** The head and the tail of a concatenation whose first part is not empty. */
  lemma HeadOfConcat<T>(a: seq<T>, b: seq<T>)
    requires a != []
    ensures (a + b)[0] == a[0] && (a + b)[1..] == a[1..] + b
  {
  }

  /** The head and the tail of a three-part concatenation whose first part is not empty. */
  lemma HeadOfJoin<T>(a: seq<T>, b: seq<T>, c: seq<T>)
    requires a != []
    ensures (a + b + c)[0] == a[0] && (a + b + c)[1..] == a[1..] + b + c
  {
  }

  lemma Assoc<T>(a: seq<T>, b: seq<T>, c: seq<T>)
    ensures a + b + c == a + (b + c)
    ensures a == [] ==> a + b + c == b + c
    ensures c == [] ==> a + b + c == a + b
  {
  }

  /** An element in front of a three-part concatenation joins its first part. */
  lemma ConsJoin<T>(h: T, a: seq<T>, b: seq<T>, c: seq<T>)
    ensures [h] + (a + b + c) == [h] + a + b + c
  {
  }

  /** How `CollapseSpaces` takes apart a non-empty string, one step. */
  lemma {:induction false} CollapseStep(s: string)
    requires s != []
    ensures CollapseSpaces(s) == if IsRegexSpace(s[0]) then [' '] + CollapseSpaces(DropSpaceRun(s))
                                 else [s[0]] + CollapseSpaces(s[1..])
  {
  }

  /**
   * One maximal run of white space between `x` and `y` becomes exactly one
   * space in its place, and the text on either side is collapsed on its own.
   */
  lemma {:induction false} CollapseRun(x: string, w: string, y: string)
    requires x == [] || !IsRegexSpace(x[|x| - 1])
    requires w != [] && forall i :: 0 <= i < |w| ==> IsRegexSpace(w[i])
    requires y == [] || !IsRegexSpace(y[0])
    ensures CollapseSpaces(x + w + y) == CollapseSpaces(x) + " " + CollapseSpaces(y)
    decreases |x|
  {
    if x == [] {
      CollapseLeadingRun(x, w, y);
    } else if IsRegexSpace(x[0]) {
      var x' := DropSpaceRun(x);
      DropRunWithin(x, w + y);
      DropRunKeepsLast(x);
      CollapseRun(x', w, y);
      CollapseSpaceHead(x, w, y);
    } else {
      CollapseRun(x[1..], w, y);
      CollapseTextHead(x, w, y);
    }
  }

  lemma {:induction false} CollapseLeadingRun(x: string, w: string, y: string)
    requires x == []
    requires w != [] && forall i :: 0 <= i < |w| ==> IsRegexSpace(w[i])
    requires y == [] || !IsRegexSpace(y[0])
    ensures CollapseSpaces(x + w + y) == CollapseSpaces(x) + " " + CollapseSpaces(y)
  {
    Assoc(x, w, y);
    Assoc(CollapseSpaces(x), " ", CollapseSpaces(y));
    LeadingRunStep(w, y);
  }

  lemma {:induction false} LeadingRunStep(w: string, y: string)
    requires w != [] && forall i :: 0 <= i < |w| ==> IsRegexSpace(w[i])
    requires y == [] || !IsRegexSpace(y[0])
    ensures CollapseSpaces(w + y) == " " + CollapseSpaces(y)
  {
    HeadOfJoin(w, y, []);
    DropWholeRun(w, y);
    CollapseStep(w + y);
  }

  lemma {:induction false} CollapseSpaceHead(x: string, w: string, y: string)
    requires x != [] && IsRegexSpace(x[0])
    requires DropSpaceRun(x + (w + y)) == DropSpaceRun(x) + (w + y)
    requires CollapseSpaces(DropSpaceRun(x) + w + y) == CollapseSpaces(DropSpaceRun(x)) + " " + CollapseSpaces(y)
    ensures CollapseSpaces(x + w + y) == CollapseSpaces(x) + " " + CollapseSpaces(y)
  {
    HeadOfJoin(x, w, y);
    Assoc(x, w, y);
    Assoc(DropSpaceRun(x), w, y);
    CollapseStep(x + w + y);
    CollapseStep(x);
    ConsJoin(' ', CollapseSpaces(DropSpaceRun(x)), " ", CollapseSpaces(y));
  }

  lemma {:induction false} CollapseTextHead(x: string, w: string, y: string)
    requires x != [] && !IsRegexSpace(x[0])
    requires CollapseSpaces(x[1..] + w + y) == CollapseSpaces(x[1..]) + " " + CollapseSpaces(y)
    ensures CollapseSpaces(x + w + y) == CollapseSpaces(x) + " " + CollapseSpaces(y)
  {
    HeadOfJoin(x, w, y);
    CollapseStep(x + w + y);
    CollapseStep(x);
    ConsJoin(x[0], CollapseSpaces(x[1..]), " ", CollapseSpaces(y));
  }

  /** The collapsed text ends in white space exactly when the input does. */
  lemma {:induction false} CollapseKeepsLast(s: string)
    requires s != []
    ensures IsRegexSpace(CollapseSpaces(s)[|CollapseSpaces(s)| - 1]) <==> IsRegexSpace(s[|s| - 1])
    decreases |s|
  {
    CollapseStep(s);
    if IsRegexSpace(s[0]) {
      var rest := DropSpaceRun(s);
      if rest != [] {
        CollapseKeepsLast(rest);
        LastOfCons(' ', CollapseSpaces(rest));
        assert rest[|rest| - 1] == s[|s| - 1];
      }
    } else if |s| > 1 {
      CollapseKeepsLast(s[1..]);
      LastOfCons(s[0], CollapseSpaces(s[1..]));
    }
  }

  lemma LastOfCons<T>(h: T, t: seq<T>)
    requires t != []
    ensures ([h] + t)[|t|] == t[|t| - 1]
  {
  }

  /** Every suffix of a collapsed string is collapsed. */
  lemma CollapsedTail(s: string)
    requires SpacesCollapsed(s) && s != []
    ensures SpacesCollapsed(s[1..])
  {
    var t := s[1..];
    forall i | 0 <= i < |t|
      ensures t[i] == s[i + 1]
    {
    }
  }

  /** Collapsing a string whose white space is already collapsed changes nothing. */
  lemma {:induction false} CollapseOfCollapsed(s: string)
    requires SpacesCollapsed(s)
    ensures CollapseSpaces(s) == s
    decreases |s|
  {
    if s != [] {
      var t := s[1..];
      CollapsedTail(s);
      CollapseOfCollapsed(t);
      assert s == [s[0]] + t;
      if IsRegexSpace(s[0]) {
        assert t == [] || !IsRegexSpace(t[0]) by {
          if t != [] {
            assert t[0] == s[1];
          }
        }
        assert DropSpaceRun(t) == t;
        assert DropSpaceRun(s) == t;
        assert CollapseSpaces(s) == [' '] + CollapseSpaces(t);
      } else {
        assert CollapseSpaces(s) == [s[0]] + CollapseSpaces(t);
      }
    }
  }

  /** True when `String.trim` would leave `s` as it is. */
  predicate IsTrimmed(s: string) {
    s == [] || (!IsTrimmable(s[0]) && !IsTrimmable(s[|s| - 1]))
  }

  /** How many characters `String.trim` strips from the front of `s`. */
  function TrimOffset(s: string): (lo: nat)
    ensures lo <= |s|
    ensures forall k :: 0 <= k < lo ==> IsTrimmable(s[k])
    ensures lo == |s| || !IsTrimmable(s[lo])
  {
    if s == [] || !IsTrimmable(s[0]) then 0 else 1 + TrimOffset(s[1..])
  }

  /** Where the run of characters `String.trim` strips from the back of `s` begins. */
  function TrimEnd(s: string): (hi: nat)
    ensures hi <= |s|
    ensures forall k :: hi <= k < |s| ==> IsTrimmable(s[k])
    ensures hi == 0 || !IsTrimmable(s[hi - 1])
  {
    if s == [] || !IsTrimmable(s[|s| - 1]) then |s| else TrimEnd(s[..|s| - 1])
  }

  /**
   * `String.trim()`: the contiguous middle of `s` left after stripping every
   * character up to U+0020 from both ends.
   */
  function Trim(s: string): (r: string)
    ensures IsTrimmed(r)
    ensures TrimOffset(s) + |r| <= |s| && r == s[TrimOffset(s)..TrimOffset(s) + |r|]
    ensures forall k :: 0 <= k < TrimOffset(s) ==> IsTrimmable(s[k])
    ensures forall k :: TrimOffset(s) + |r| <= k < |s| ==> IsTrimmable(s[k])
  {
    var lo := TrimOffset(s);
    if lo == |s| then []
    else
      var hi := TrimEnd(s);
      assert lo < hi;
      s[lo..hi]
  }

  /** A slice draws its characters from `s`, and is collapsed when `s` is. */
  lemma SliceFacts(s: string, lo: nat, t: string)
    requires lo + |t| <= |s| && t == s[lo..lo + |t|]
    ensures forall i :: 0 <= i < |t| ==> t[i] in s
    ensures SpacesCollapsed(s) ==> SpacesCollapsed(t)
  {
    forall i | 0 <= i < |t|
      ensures t[i] == s[lo + i] && t[i] in s
    {
    }
  }

  /** Trimming draws its characters from the input and keeps collapsed white space collapsed. */
  lemma {:induction false} TrimKeepsShape(s: string)
    ensures forall i :: 0 <= i < |Trim(s)| ==> Trim(s)[i] in s
    ensures SpacesCollapsed(s) ==> SpacesCollapsed(Trim(s))
  {
    SliceFacts(s, TrimOffset(s), Trim(s));
  }

  /** Trimming a string that has nothing to strip changes nothing. */
  lemma TrimOfTrimmed(s: string)
    requires IsTrimmed(s)
    ensures Trim(s) == s
  {
  }

  /** `s.trim().isEmpty()`: the string holds nothing but characters up to U+0020. */
  predicate IsBlank(s: string) {
    Trim(s) == []
  }

  /** A string is blank exactly when every one of its characters is one `trim` strips. */
  lemma {:induction false} BlankIff(s: string)
    ensures IsBlank(s) <==> forall i :: 0 <= i < |s| ==> IsTrimmable(s[i])
  {
    if !forall i :: 0 <= i < |s| ==> IsTrimmable(s[i]) {
      var i :| 0 <= i < |s| && !IsTrimmable(s[i]);
      assert TrimOffset(s) <= i < TrimOffset(s) + |Trim(s)|;
    }
  }

  /**
   * The characters of `s` above U+0020, in order: the text that neither
   * `trim` nor white-space collapsing touches.
   */
  function Visible(s: string): (r: string)
    ensures forall i :: 0 <= i < |r| ==> !IsTrimmable(r[i])
  {
    if s == [] then []
    else if IsTrimmable(s[0]) then Visible(s[1..])
    else [s[0]] + Visible(s[1..])
  }

  lemma VisibleAppend(a: string, b: string)
    ensures Visible(a + b) == Visible(a) + Visible(b)
  {
    if a == [] {
      assert a + b == b;
    } else {
      assert (a + b)[0] == a[0];
      assert (a + b)[1..] == a[1..] + b;
      VisibleAppend(a[1..], b);
    }
  }

  /** A string has no visible text exactly when `trim` would strip all of it. */
  lemma VisibleEmptyIff(s: string)
    ensures Visible(s) == [] <==> forall i :: 0 <= i < |s| ==> IsTrimmable(s[i])
  {
    if s != [] {
      VisibleEmptyIff(s[1..]);
      assert forall i :: 1 <= i < |s| ==> s[i] == s[1..][i - 1];
    }
  }

  /** Dropping `\s` characters leaves the visible text alone, since each of them is at most U+0020. */
  lemma VisibleWithoutSpaces(s: string)
    ensures Visible(WithoutSpaces(s)) == Visible(s)
  {
    if s != [] {
      VisibleWithoutSpaces(s[1..]);
      if !IsRegexSpace(s[0]) {
        assert ([s[0]] + WithoutSpaces(s[1..]))[1..] == WithoutSpaces(s[1..]);
      }
    }
  }

  /** Collapsing white space leaves the visible text alone. */
  lemma {:induction false} VisibleOfCollapse(s: string)
    ensures Visible(CollapseSpaces(s)) == Visible(s)
  {
    VisibleWithoutSpaces(s);
    VisibleWithoutSpaces(CollapseSpaces(s));
  }

  /** Trimming leaves the visible text alone. */
  lemma {:induction false} VisibleOfTrim(s: string)
    ensures Visible(Trim(s)) == Visible(s)
  {
    VisibleMiddle(s, TrimOffset(s), TrimOffset(s) + |Trim(s)|);
  }

  /** Text up to U+0020 on either side of a slice adds nothing visible. */
  lemma {:induction false} VisibleMiddle(s: string, lo: nat, hi: nat)
    requires lo <= hi <= |s|
    requires forall k :: 0 <= k < lo ==> IsTrimmable(s[k])
    requires forall k :: hi <= k < |s| ==> IsTrimmable(s[k])
    ensures Visible(s) == Visible(s[lo..hi])
  {
    var a, m, b := s[..lo], s[lo..hi], s[hi..];
    SplitThree(s, lo, hi);
    VisibleAppend(a + m, b);
    VisibleAppend(a, m);
    assert forall k :: 0 <= k < |a| ==> a[k] == s[k];
    assert forall k :: 0 <= k < |b| ==> b[k] == s[hi + k];
    VisibleEmptyIff(a);
    VisibleEmptyIff(b);
    Assoc([], Visible(m), []);
  }

  lemma SplitThree<T>(s: seq<T>, lo: nat, hi: nat)
    requires lo <= hi <= |s|
    ensures s == s[..lo] + s[lo..hi] + s[hi..]
  {
  }

  /** Lower-casing keeps which characters `trim` would strip. */
  lemma {:induction false} ToLowerKeepsTrimmable(s: string)
    ensures forall i :: 0 <= i < |s| ==> (IsTrimmable(ToLower(s)[i]) <==> IsTrimmable(s[i]))
  {
  }

  /** A trimmed string is empty exactly when it has no visible text. */
  lemma {:induction false} TrimmedVisible(s: string)
    requires IsTrimmed(s)
    ensures Visible(s) == [] <==> s == []
  {
    if s != [] {
      assert Visible(s) == [s[0]] + Visible(s[1..]);
    }
  }

  /**
   * The normalisation applied to career goals and job titles:
   * `toLowerCase().replaceAll("\\s+", " ").trim()`. Only the layout changes:
   * the visible characters are those of the lower-cased input, in order, and
   * the result is empty exactly when the input is blank.
   */
  function Normalize(s: string): (r: string)
    ensures IsLowerCase(r)
    ensures SpacesCollapsed(r)
    ensures IsTrimmed(r)
    ensures Visible(r) == Visible(ToLower(s))
    ensures r == [] <==> IsBlank(s)
  {
    var lowered := ToLower(s);
    var collapsed := CollapseSpaces(lowered);
    var r := Trim(collapsed);
    NormalizeShape(lowered, collapsed, r);
    NormalizeKeepsVisible(lowered, collapsed, r);
    NormalizeBlank(s, lowered, r);
    r
  }

  lemma {:induction false} NormalizeShape(lowered: string, collapsed: string, r: string)
    requires IsLowerCase(lowered) && collapsed == CollapseSpaces(lowered) && r == Trim(collapsed)
    ensures IsLowerCase(r) && SpacesCollapsed(r)
  {
    TrimKeepsShape(collapsed);
    forall i | 0 <= i < |r|
      ensures !IsUpper(r[i])
    {
      assert r[i] in collapsed;
      if r[i] != ' ' {
        assert r[i] in lowered;
      }
    }
  }

  lemma {:induction false} NormalizeKeepsVisible(lowered: string, collapsed: string, r: string)
    requires collapsed == CollapseSpaces(lowered) && r == Trim(collapsed)
    ensures Visible(r) == Visible(lowered)
  {
    VisibleOfCollapse(lowered);
    VisibleOfTrim(collapsed);
  }

  lemma {:induction false} NormalizeBlank(s: string, lowered: string, r: string)
    requires lowered == ToLower(s) && IsTrimmed(r) && Visible(r) == Visible(lowered)
    ensures r == [] <==> IsBlank(s)
  {
    TrimmedVisible(r);
    VisibleEmptyIff(lowered);
    ToLowerKeepsTrimmable(s);
    BlankIff(s);
  }

  /** Normalising a normalised string changes nothing. */
  lemma NormalizeIdempotent(s: string)
    ensures Normalize(Normalize(s)) == Normalize(s)
  {
    var n := Normalize(s);
    ToLowerOfLowerCase(n);
    CollapseOfCollapsed(n);
    TrimOfTrimmed(n);
  }

  /** `replace(" ", "")`: every plain space removed, everything else kept in order. */
  function RemoveSpaces(s: string): (r: string)
    ensures ' ' !in r
    ensures multiset(r) == multiset(s)[' ' := 0]
    ensures IsSubsequence(r, s)
  {
    if s == [] then []
    else
      assert s == [s[0]] + s[1..];
      var tail := RemoveSpaces(s[1..]);
      if s[0] == ' ' then tail
      else
        assert ([s[0]] + tail)[1..] == tail;
        [s[0]] + tail
  }

  // ---------------------------------------------------------------------------
  // Patterns: literal text and the regular expressions `split` is given
  // ---------------------------------------------------------------------------

  /** One position of a fixed-length pattern: a literal character, or the regex `.`. */
  datatype Atom = Lit(c: char) | AnyChar

  type Pattern = seq<Atom>

  /** The characters the regex `.` does not match without the DOTALL flag. */
  predicate IsLineTerminator(c: char) {
    c == '\n' || c == '\r' || c == '\U{0085}' || c == '\U{2028}' || c == '\U{2029}'
  }

  predicate AtomMatches(a: Atom, c: char) {
    match a
    case Lit(d) => c == d
    case AnyChar => !IsLineTerminator(c)
  }

  /** The pattern that matches exactly the text `t`. */
  function Literal(t: string): (p: Pattern)
    ensures |p| == |t|
    ensures forall k :: 0 <= k < |t| ==> p[k] == Lit(t[k])
  {
    seq(|t|, k requires 0 <= k < |t| => Lit(t[k]))
  }

  /** The text `t` occurs in `s` starting at index `i`. */
  predicate OccursAt(s: string, t: string, i: nat) {
    i + |t| <= |s| && s[i..i + |t|] == t
  }

  /** `p` matches the text of `s` that starts at index `i`. */
  predicate MatchesAt(s: string, p: Pattern, i: nat) {
    i + |p| <= |s| && forall k :: 0 <= k < |p| ==> AtomMatches(p[k], s[i + k])
  }

  /** A literal pattern matches at `i` exactly when the text there is the literal. */
  lemma LiteralMatchesAt(s: string, t: string, i: nat)
    ensures MatchesAt(s, Literal(t), i) <==> OccursAt(s, t, i)
  {
    if OccursAt(s, t, i) {
      forall k | 0 <= k < |t|
        ensures AtomMatches(Literal(t)[k], s[i + k])
      {
        assert s[i..i + |t|][k] == s[i + k];
      }
    }
  }

  /** The first index at or after `from` where `p` matches `s`, as a regex `find` reports it. */
  function FirstMatch(s: string, p: Pattern, from: nat): (r: Option<nat>)
    requires from <= |s|
    ensures r.Some? ==> from <= r.value && MatchesAt(s, p, r.value)
    ensures r.Some? ==> forall j :: from <= j < r.value ==> !MatchesAt(s, p, j)
    ensures r.None? ==> forall j :: from <= j ==> !MatchesAt(s, p, j)
    decreases |s| - from
  {
    if from + |p| > |s| then None
    else if MatchesAt(s, p, from) then Some(from)
    else FirstMatch(s, p, from + 1)
  }

  /** `s.contains(t)`. */
  predicate Contains(s: string, t: string) {
    FirstMatch(s, Literal(t), 0).Some?
  }

  /** `contains` holds exactly when `t` occurs as a contiguous slice of `s`. */
  lemma ContainsIff(s: string, t: string)
    ensures Contains(s, t) <==> exists i :: OccursAt(s, t, i)
  {
    if Contains(s, t) {
      var i := FirstMatch(s, Literal(t), 0).value;
      LiteralMatchesAt(s, t, i);
    } else {
      forall i: nat
        ensures !OccursAt(s, t, i)
      {
        LiteralMatchesAt(s, t, i);
      }
    }
  }

  /** Every string contains the empty string. */
  lemma ContainsEmpty(s: string)
    ensures Contains(s, [])
  {
  }

  /** A one-character literal pattern matches exactly where that character stands. */
  lemma SingleCharMatchesAt(s: string, c: char, k: nat)
    ensures MatchesAt(s, [Lit(c)], k) <==> k < |s| && s[k] == c
  {
    if MatchesAt(s, [Lit(c)], k) {
      assert AtomMatches([Lit(c)][0], s[k + 0]);
    }
    if k < |s| && s[k] == c {
      forall j | 0 <= j < 1
        ensures AtomMatches([Lit(c)][j], s[k + j])
      {
        assert j == 0;
      }
    }
  }

  // ---------------------------------------------------------------------------
  // split
  // ---------------------------------------------------------------------------

  /** No match of `p` lies anywhere inside `s`. */
  predicate MatchFree(s: string, p: Pattern) {
    forall j :: 0 <= j <= |s| ==> !MatchesAt(s, p, j)
  }

  /** The end of the first piece: the first match of `p`, or the end of `s` when there is none. */
  function FirstPieceEnd(s: string, p: Pattern): (e: nat)
    ensures e <= |s|
    ensures forall j :: 0 <= j < e ==> !MatchesAt(s, p, j)
    ensures e == |s| || MatchesAt(s, p, e)
  {
    match FirstMatch(s, p, 0)
    case None => |s|
    case Some(i) => i
  }

  /**
   * The pieces between successive non-overlapping matches of `p`, scanning
   * left to right, with nothing yet removed.
   */
  function RawSplit(s: string, p: Pattern): (r: seq<string>)
    requires |p| > 0
    ensures |r| >= 1
    ensures r[0] == s[..FirstPieceEnd(s, p)]
    decreases |s|
  {
    match FirstMatch(s, p, 0)
    case None =>
      assert s[..|s|] == s;
      [s]
    case Some(i) =>
      [s[..i]] + RawSplit(s[i + |p|..], p)
  }

  /** No raw piece contains a match of the pattern it was split on. */
  lemma {:induction false} RawSplitPieceMatchFree(s: string, p: Pattern, k: nat)
    requires |p| > 0 && k < |RawSplit(s, p)|
    ensures MatchFree(RawSplit(s, p)[k], p)
    decreases |s|
  {
    if k == 0 {
      PrefixBeforeFirstMatchIsFree(s, p, FirstPieceEnd(s, p));
    } else {
      var i := FirstMatch(s, p, 0).value;
      RawSplitStep(s, p, i);
      RawSplitPieceMatchFree(s[i + |p|..], p, k - 1);
    }
  }

  /** With the first match at `i`, the raw pieces are the text before it and then the pieces of the rest. */
  lemma {:induction false} RawSplitStep(s: string, p: Pattern, i: nat)
    requires |p| > 0 && FirstMatch(s, p, 0) == Some(i)
    ensures i + |p| <= |s| && RawSplit(s, p) == [s[..i]] + RawSplit(s[i + |p|..], p)
  {
  }

  lemma PrefixBeforeFirstMatchIsFree(s: string, p: Pattern, i: nat)
    requires |p| > 0 && i <= |s|
    requires forall j :: 0 <= j < i ==> !MatchesAt(s, p, j)
    ensures MatchFree(s[..i], p)
  {
    forall j | 0 <= j <= i
      ensures !MatchesAt(s[..i], p, j)
    {
      MatchInPrefix(s, p, i, j);
    }
  }

  /** A match inside a prefix of `s` is a match in `s` at the same index. */
  lemma MatchInPrefix(s: string, p: Pattern, i: nat, j: nat)
    requires i <= |s|
    ensures MatchesAt(s[..i], p, j) ==> MatchesAt(s, p, j)
  {
    if MatchesAt(s[..i], p, j) {
      forall k | 0 <= k < |p|
        ensures AtomMatches(p[k], s[j + k])
      {
        assert s[..i][j + k] == s[j + k];
      }
    }
  }

  /** Joins pieces with `d` between consecutive ones. */
  function JoinWith(xs: seq<string>, d: string): string
    requires |xs| >= 1
  {
    if |xs| == 1 then xs[0] else xs[0] + d + JoinWith(xs[1..], d)
  }

  /** Splitting on a literal delimiter and joining the pieces back with it restores the text. */
  lemma {:induction false} RawSplitJoin(s: string, d: string)
    requires |d| > 0
    ensures JoinWith(RawSplit(s, Literal(d)), d) == s
    decreases |s|
  {
    var p := Literal(d);
    var m := FirstMatch(s, p, 0);
    if m.Some? {
      var i := m.value;
      LiteralMatchesAt(s, d, i);
      var rest := s[i + |d|..];
      var tail := RawSplit(rest, p);
      var pieces := RawSplit(s, p);
      assert pieces == [s[..i]] + tail;
      assert pieces[0] == s[..i] && pieces[1..] == tail && |pieces| > 1;
      RawSplitJoin(rest, d);
      assert JoinWith(pieces, d) == s[..i] + d + rest;
      Reassemble(s, i, d);
    }
  }

  /** Cutting `s` around an occurrence of `d` and putting the parts back together gives `s`. */
  lemma Reassemble(s: string, i: nat, d: string)
    requires OccursAt(s, d, i)
    ensures s[..i] + d + s[i + |d|..] == s
  {
    assert s == s[..i] + s[i..i + |d|] + s[i + |d|..];
  }

  /** Removes the empty strings at the end of `xs`, as `split` does with a zero limit. */
  function DropTrailingEmpty(xs: seq<string>): (r: seq<string>)
    ensures |r| <= |xs| && r == xs[..|r|]
    ensures r == [] || r[|r| - 1] != []
    ensures forall k :: |r| <= k < |xs| ==> xs[k] == []
  {
    if xs == [] || xs[|xs| - 1] != [] then xs else DropTrailingEmpty(xs[..|xs| - 1])
  }

  /**
   * `s.split(regex)` with the default limit: the input itself when the pattern
   * never matches, otherwise the pieces between matches with the trailing
   * empty pieces removed.
   */
  function Split(s: string, p: Pattern): (r: seq<string>)
    requires |p| > 0
    ensures FirstMatch(s, p, 0).None? ==> r == [s]
    ensures FirstMatch(s, p, 0).Some? ==> |r| <= |RawSplit(s, p)| && r == RawSplit(s, p)[..|r|]
    ensures FirstMatch(s, p, 0).Some? ==> r == [] || r[|r| - 1] != []
    ensures FirstMatch(s, p, 0).Some? ==> forall k :: |r| <= k < |RawSplit(s, p)| ==> RawSplit(s, p)[k] == []
  {
    if FirstMatch(s, p, 0).None? then [s] else DropTrailingEmpty(RawSplit(s, p))
  }

  /** `s` is nothing but matches of `p` placed back to back from its start. */
  predicate MatchesOnly(s: string, p: Pattern)
    requires |p| > 0
    decreases |s|
  {
    s == [] || (MatchesAt(s, p, 0) && MatchesOnly(s[|p|..], p))
  }

  /** Every string in `xs` is empty. */
  predicate AllEmpty(xs: seq<string>) {
    forall k :: 0 <= k < |xs| ==> xs[k] == []
  }

  lemma {:induction false} AllEmptyCons(h: string, t: seq<string>)
    ensures AllEmpty([h] + t) <==> h == [] && AllEmpty(t)
  {
    var xs := [h] + t;
    if h == [] && AllEmpty(t) {
      forall k | 0 <= k < |xs|
        ensures xs[k] == []
      {
        if k > 0 {
          assert xs[k] == t[k - 1];
        }
      }
    }
    if AllEmpty(xs) {
      assert xs[0] == h;
      forall k | 0 <= k < |t|
        ensures t[k] == []
      {
        assert t[k] == xs[k + 1];
      }
    }
  }

  /** Every raw piece is empty exactly when the text is made of back-to-back matches alone. */
  lemma {:induction false} RawSplitAllEmpty(s: string, p: Pattern)
    requires |p| > 0
    ensures AllEmpty(RawSplit(s, p)) <==> MatchesOnly(s, p)
    decreases |s|
  {
    match FirstMatch(s, p, 0)
    case None =>
      NoMatchAllEmpty(s, p);
    case Some(i) =>
      RawSplitAllEmpty(s[i + |p|..], p);
      MatchAllEmpty(s, p, i);
  }

  lemma {:induction false} NoMatchAllEmpty(s: string, p: Pattern)
    requires |p| > 0 && FirstMatch(s, p, 0).None?
    ensures AllEmpty(RawSplit(s, p)) <==> MatchesOnly(s, p)
  {
    assert RawSplit(s, p) == [s];
    assert s != [] ==> !MatchesAt(s, p, 0);
  }

  lemma {:induction false} MatchAllEmpty(s: string, p: Pattern, i: nat)
    requires |p| > 0 && FirstMatch(s, p, 0) == Some(i)
    requires AllEmpty(RawSplit(s[i + |p|..], p)) <==> MatchesOnly(s[i + |p|..], p)
    ensures AllEmpty(RawSplit(s, p)) <==> MatchesOnly(s, p)
  {
    var rest := s[i + |p|..];
    assert RawSplit(s, p) == [s[..i]] + RawSplit(rest, p);
    AllEmptyCons(s[..i], RawSplit(rest, p));
    MatchesOnlyStep(s, p, i);
  }

  /** With the first match at `i`, the text is all matches exactly when `i` is 0 and the rest is all matches. */
  lemma {:induction false} MatchesOnlyStep(s: string, p: Pattern, i: nat)
    requires |p| > 0 && FirstMatch(s, p, 0) == Some(i)
    ensures MatchesOnly(s, p) <==> s[..i] == [] && MatchesOnly(s[i + |p|..], p)
  {
    assert s != [];
    assert MatchesAt(s, p, 0) <==> i == 0;
  }

  /**
   * The split has more than `n` elements exactly when some raw piece past
   * index `n` is non-empty (only empty pieces are dropped from the end).
   */
  lemma {:induction false} SplitLonger(s: string, p: Pattern, n: nat)
    requires |p| > 0 && FirstMatch(s, p, 0).Some?
    ensures n < |Split(s, p)| <==> exists k :: n <= k < |RawSplit(s, p)| && RawSplit(s, p)[k] != []
  {
    if n < |Split(s, p)| {
      SplitLastKept(s, p);
    } else {
      SplitDropsOnlyEmpty(s, p, n);
    }
  }

  lemma {:induction false} SplitLastKept(s: string, p: Pattern)
    requires |p| > 0 && FirstMatch(s, p, 0).Some? && Split(s, p) != []
    ensures var k := |Split(s, p)| - 1;
            k < |RawSplit(s, p)| && RawSplit(s, p)[k] != []
  {
    var r := Split(s, p);
    var raw := RawSplit(s, p);
    var k := |r| - 1;
    assert r[k] == raw[..|r|][k] == raw[k];
  }

  lemma {:induction false} SplitDropsOnlyEmpty(s: string, p: Pattern, n: nat)
    requires |p| > 0 && FirstMatch(s, p, 0).Some? && |Split(s, p)| <= n
    ensures forall k :: n <= k < |RawSplit(s, p)| ==> RawSplit(s, p)[k] == []
  {
  }

  /** A pattern of one literal character: the text is all matches exactly when every character is that one. */
  lemma {:induction false} MatchesOnlyChar(s: string, c: char)
    ensures MatchesOnly(s, [Lit(c)]) <==> forall j :: 0 <= j < |s| ==> s[j] == c
    decreases |s|
  {
    if s != [] {
      SingleCharMatchesAt(s, c, 0);
      MatchesOnlyChar(s[1..], c);
      assert forall j :: 1 <= j < |s| ==> s[j] == s[1..][j - 1];
    }
  }

  /** The exception an array index past the end raises. */
  datatype IndexError = ArrayIndexOutOfBounds(index: nat, length: nat)

  /** `xs[k]` on a Java array: the element, or the exception when `k` is past the end. */
  function Element(xs: seq<string>, k: nat): (r: Result<string, IndexError>)
    ensures r.Ok? <==> k < |xs|
    ensures r.Ok? ==> r.value == xs[k]
  {
    if k < |xs| then Ok(xs[k]) else Err(ArrayIndexOutOfBounds(k, |xs|))
  }
}
