/**
 * String helpers shared by every part of the ingestion pipeline: the
 * whitespace, digit, word-character and casing predicates, `strip`,
 * `split`, `join`, `re.sub(r'\s+', ' ', ...)` and the path helpers
 * `Path.name` / `Path.suffix`.
 *
 * Python's character classes are Unicode-wide; here they cover ASCII and
 * the basic Cyrillic block (U+0400..U+045F), which is what the documents
 * this system ingests consist of.
 */
module Text {

  datatype Option<+T> = None | Some(value: T) {
    function GetOr(default: T): T {
      match this
      case Some(v) => v
      case None => default
    }
  }

  // ---------------------------------------------------------------------
  // Character classes

  /** `str.isspace` / `\s` on one character. */
  predicate IsSpace(c: char) {
    c == ' ' || c == '\t' || c == '\n' || c == '\r' || c == '\U{000B}' || c == '\U{000C}'
  }

  /** `str.isdigit` / `\d`. */
  predicate IsDigit(c: char) {
    '0' <= c <= '9'
  }

  predicate IsUpperChar(c: char) {
    ('A' <= c <= 'Z') || ('\U{0400}' <= c <= '\U{042F}')
  }

  predicate IsLowerChar(c: char) {
    ('a' <= c <= 'z') || ('\U{0430}' <= c <= '\U{045F}')
  }

  predicate IsLetter(c: char) {
    IsUpperChar(c) || IsLowerChar(c)
  }

  /** `\w`: letters, digits and the underscore. */
  predicate IsWordChar(c: char) {
    IsLetter(c) || IsDigit(c) || c == '_'
  }

  /** `str.lower` on one character. */
  function ToLower(c: char): char {
    if 'A' <= c <= 'Z' then (c as int + 32) as char
    else if '\U{0410}' <= c <= '\U{042F}' then (c as int + 32) as char
    else if '\U{0400}' <= c <= '\U{040F}' then (c as int + 80) as char
    else c
  }

  function Lower(s: string): string {
    seq(|s|, i requires 0 <= i < |s| => ToLower(s[i]))
  }

  /** `str.isupper`: at least one cased character and no lower-case one. */
  predicate IsUpperCase(s: string) {
    (exists i :: 0 <= i < |s| && IsUpperChar(s[i])) &&
    (forall i :: 0 <= i < |s| ==> !IsLowerChar(s[i]))
  }

  predicate NoSpace(s: string) {
    forall i :: 0 <= i < |s| ==> !IsSpace(s[i])
  }

  predicate AllSpace(s: string) {
    forall i :: 0 <= i < |s| ==> IsSpace(s[i])
  }

  predicate AllDigits(s: string) {
    forall i :: 0 <= i < |s| ==> IsDigit(s[i])
  }

  /** No two adjacent whitespace characters. */
  predicate SpacePairAt(s: string, i: nat)
    requires i + 1 < |s|
  {
    IsSpace(s[i]) && IsSpace(s[i + 1])
  }

  predicate NoDoubleSpace(s: string) {
    forall i: nat :: i + 1 < |s| ==> !SpacePairAt(s, i)
  }

  /** No leading or trailing whitespace. */
  predicate Trimmed(s: string) {
    s == [] || (!IsSpace(s[0]) && !IsSpace(s[|s| - 1]))
  }

  /** Every whitespace character is a plain space (so there is no newline). */
  predicate OnlyPlainSpaces(s: string) {
    forall i :: 0 <= i < |s| && IsSpace(s[i]) ==> s[i] == ' '
  }

  /** How many characters of `s` satisfy `p` (`sum(p(c) for c in s)`). */
  function Count(s: string, p: char -> bool): (n: nat)
    ensures n <= |s|
  {
    if |s| == 0 then 0 else (if p(s[0]) then 1 else 0) + Count(s[1..], p)
  }

  // ---------------------------------------------------------------------
  // Substrings

  predicate StartsWith(s: string, prefix: string) {
    |prefix| <= |s| && s[..|prefix|] == prefix
  }

  predicate EndsWith(s: string, suffix: string) {
    |suffix| <= |s| && s[|s| - |suffix|..] == suffix
  }

  /** Python's `sub in s`. */
  predicate Contains(s: string, sub: string)
    decreases |s|
  {
    StartsWith(s, sub) || (|s| > 0 && Contains(s[1..], sub))
  }

  /** `any(k in s for k in keys)`. */
  predicate ContainsAny(s: string, keys: seq<string>) {
    exists k :: k in keys && Contains(s, k)
  }

  predicate IsSubsequence<T(==)>(a: seq<T>, b: seq<T>)
    decreases |b|
  {
    if |a| == 0 then true
    else if |b| == 0 then false
    else if a[0] == b[0] then IsSubsequence(a[1..], b[1..])
    else IsSubsequence(a, b[1..])
  }

  lemma {:induction false} SubsequenceLength<T>(a: seq<T>, b: seq<T>)
    requires IsSubsequence(a, b)
    ensures |a| <= |b|
    decreases |b|
  {
    if |a| > 0 {
      if a[0] == b[0] {
        SubsequenceLength(a[1..], b[1..]);
      } else {
        SubsequenceLength(a, b[1..]);
      }
    }
  }

  lemma {:induction false} SubsequenceRefl<T>(a: seq<T>)
    ensures IsSubsequence(a, a)
    decreases |a|
  {
    if |a| > 0 {
      SubsequenceRefl(a[1..]);
    }
  }

  /** Prepending an element on the right-hand side keeps a subsequence. */
  lemma {:induction false} SubsequenceCons<T>(a: seq<T>, x: T, b: seq<T>)
    requires IsSubsequence(a, b)
    ensures IsSubsequence(a, [x] + b)
    decreases |a| + |b| + 1
  {
    var xb := [x] + b;
    assert xb[1..] == b;
    if |a| > 0 && a[0] == x {
      SubsequenceTail(a, b);
    }
  }

  lemma {:induction false} SubsequenceTail<T>(a: seq<T>, b: seq<T>)
    requires |a| > 0 && IsSubsequence(a, b)
    ensures IsSubsequence(a[1..], b)
    decreases |a| + |b|
  {
    if a[0] == b[0] {
      SubsequenceCons(a[1..], b[0], b[1..]);
      assert [b[0]] + b[1..] == b;
    } else {
      SubsequenceTail(a, b[1..]);
      SubsequenceCons(a[1..], b[0], b[1..]);
      assert [b[0]] + b[1..] == b;
    }
  }

  lemma {:induction false} SubsequenceSnoc<T>(a: seq<T>, b: seq<T>, x: T)
    requires IsSubsequence(a, b)
    ensures IsSubsequence(a, b + [x]) && IsSubsequence(a + [x], b + [x])
    decreases |b|
  {
    if |b| == 0 {
      assert a == [];
      assert (a + [x])[1..] == [] && (b + [x])[1..] == [];
    } else {
      assert (b + [x])[1..] == b[1..] + [x];
      if |a| == 0 {
        SubsequenceSnoc(a, b[1..], x);
        assert IsSubsequence(a + [x], b[1..] + [x]);
      } else if a[0] == b[0] {
        SubsequenceSnoc(a[1..], b[1..], x);
        assert (a + [x])[1..] == a[1..] + [x];
      } else {
        SubsequenceSnoc(a, b[1..], x);
      }
    }
  }

  /** Every element of a subsequence occurs in the larger sequence. */
  lemma {:induction false} SubsequenceMembers<T>(a: seq<T>, b: seq<T>)
    requires IsSubsequence(a, b)
    ensures forall x :: x in a ==> x in b
    decreases |b|
  {
    if |a| > 0 {
      if a[0] == b[0] {
        SubsequenceMembers(a[1..], b[1..]);
        assert forall x :: x in a ==> x == a[0] || x in a[1..];
      } else {
        SubsequenceMembers(a, b[1..]);
      }
      assert forall x :: x in b[1..] ==> x in b;
    }
  }

  lemma {:induction false} SubsequenceTrans<T>(a: seq<T>, b: seq<T>, c: seq<T>)
    requires IsSubsequence(a, b) && IsSubsequence(b, c)
    ensures IsSubsequence(a, c)
    decreases |c|
  {
    SubsequenceLength(a, b);
    SubsequenceLength(b, c);
    if |a| > 0 {
      if b[0] == c[0] && a[0] == b[0] {
        SubsequenceTrans(a[1..], b[1..], c[1..]);
      } else {
        if b[0] == c[0] {
          SubsequenceTrans(a, b[1..], c[1..]);
        } else {
          SubsequenceTrans(a, b, c[1..]);
        }
        if a[0] == c[0] {
          SubsequenceTail(a, c[1..]);
        }
      }
    }
  }

  /** The elements of `s` that satisfy `p`, in their original order
      (a list comprehension with an `if`, or a loop that appends). */
  function Filter<T(==)>(s: seq<T>, p: T -> bool): (r: seq<T>)
    ensures |r| <= |s|
    ensures forall k :: 0 <= k < |r| ==> p(r[k])
  {
    if |s| == 0 then []
    else Filter(s[..|s| - 1], p) + (if p(s[|s| - 1]) then [s[|s| - 1]] else [])
  }

  /** `Filter` keeps exactly the elements that satisfy `p`. */
  lemma {:induction false} FilterMembers<T>(s: seq<T>, p: T -> bool)
    ensures forall k :: 0 <= k < |Filter(s, p)| ==> Filter(s, p)[k] in s
    ensures forall k :: 0 <= k < |s| && p(s[k]) ==> s[k] in Filter(s, p)
  {
    if |s| > 0 {
      var init := s[..|s| - 1];
      FilterMembers(init, p);
      assert forall k :: 0 <= k < |init| ==> init[k] == s[k];
    }
  }

  /** The whole of a sequence, as a slice. */
  lemma TakeAll<T>(s: seq<T>)
    ensures s[..|s|] == s
  {
  }

  /** A non-empty sequence is its front followed by its last element. */
  lemma SplitLast<T>(u: seq<T>)
    requires u != []
    ensures u[..|u| - 1] + [u[|u| - 1]] == u
  {
  }

  /** The suffix from `i` is its first element followed by the rest. */
  lemma DropCons<T>(s: seq<T>, i: nat)
    requires i < |s|
    ensures s[i..] == [s[i]] + s[i + 1..]
  {
  }

  /** One more element looked at by a filtering loop. */
  lemma FilterSnoc<T>(s: seq<T>, i: nat, p: T -> bool)
    requires i < |s|
    ensures Filter(s[..i + 1], p) == Filter(s[..i], p) + (if p(s[i]) then [s[i]] else [])
  {
    assert s[..i + 1][..i] == s[..i];
  }

  lemma {:induction false} FilterIsSubsequence<T>(s: seq<T>, p: T -> bool)
    ensures IsSubsequence(Filter(s, p), s)
  {
    if |s| == 0 {
    } else {
      var init := s[..|s| - 1];
      FilterIsSubsequence(init, p);
      SubsequenceSnoc(Filter(init, p), init, s[|s| - 1]);
      assert init + [s[|s| - 1]] == s;
      if p(s[|s| - 1]) {
        assert Filter(s, p) == Filter(init, p) + [s[|s| - 1]];
      } else {
        assert Filter(s, p) == Filter(init, p);
      }
    }
  }

  lemma {:induction false} FilterAppend<T>(a: seq<T>, b: seq<T>, p: T -> bool)
    ensures Filter(a + b, p) == Filter(a, p) + Filter(b, p)
    decreases |b|
  {
    if |b| == 0 {
      assert a + b == a;
    } else {
      var bi := b[..|b| - 1];
      assert (a + b)[..|a + b| - 1] == a + bi;
      FilterAppend(a, bi, p);
    }
  }

  lemma FilterSingle<T>(x: T, p: T -> bool)
    ensures Filter([x], p) == if p(x) then [x] else []
  {
    assert [x][..0] == [];
  }

  /** Filtering by `p` and then by `q` is filtering by both. */
  lemma {:induction false} FilterFilter<T>(s: seq<T>, p: T -> bool, q: T -> bool, pq: T -> bool)
    requires forall x :: pq(x) == (p(x) && q(x))
    ensures Filter(Filter(s, p), q) == Filter(s, pq)
    decreases |s|
  {
    if |s| > 0 {
      var init := s[..|s| - 1];
      var x := s[|s| - 1];
      FilterFilter(init, p, q, pq);
      if p(x) {
        FilterAppend(Filter(init, p), [x], q);
        FilterSingle(x, q);
      } else {
        assert Filter(s, p) == Filter(init, p);
      }
    }
  }

  /** The values `pick` gives for the elements of `s` that it accepts, in
      order (a loop that appends a result when there is one). */
  function Picked<T, U>(s: seq<T>, pick: T -> Option<U>): (r: seq<U>)
    ensures |r| <= |s|
  {
    if |s| == 0 then []
    else
      var rest := Picked(s[..|s| - 1], pick);
      match pick(s[|s| - 1])
      case None => rest
      case Some(u) => rest + [u]
  }

  /** One more element looked at by a picking loop. */
  lemma PickedSnoc<T, U>(s: seq<T>, i: nat, pick: T -> Option<U>)
    requires i < |s|
    ensures pick(s[i]).None? ==> Picked(s[..i + 1], pick) == Picked(s[..i], pick)
    ensures pick(s[i]).Some? ==> Picked(s[..i + 1], pick) == Picked(s[..i], pick) + [pick(s[i]).value]
  {
    assert s[..i + 1][..i] == s[..i];
  }

  /** Every accepted element's value is picked. */
  lemma {:induction false} PickedComplete<T, U>(s: seq<T>, pick: T -> Option<U>, k: nat)
    requires k < |s| && pick(s[k]).Some?
    ensures pick(s[k]).value in Picked(s, pick)
  {
    var n := |s| - 1;
    assert s[..n + 1] == s;
    PickedSnoc(s, n, pick);
    if k < n {
      assert s[..n][k] == s[k];
      PickedComplete(s[..n], pick, k);
    }
  }

  /** Nothing accepted, nothing picked. */
  lemma {:induction false} PickedNone<T, U>(s: seq<T>, pick: T -> Option<U>)
    requires forall k :: 0 <= k < |s| ==> pick(s[k]).None?
    ensures Picked(s, pick) == []
  {
    if |s| > 0 {
      var init := s[..|s| - 1];
      assert forall k :: 0 <= k < |init| ==> init[k] == s[k];
      PickedNone(init, pick);
    }
  }

  /** Picking distributes over concatenation, so it keeps the order of `s`. */
  lemma {:induction false} PickedAppend<T, U>(a: seq<T>, b: seq<T>, pick: T -> Option<U>)
    ensures Picked(a + b, pick) == Picked(a, pick) + Picked(b, pick)
    decreases |b|
  {
    if |b| == 0 {
      assert a + b == a;
    } else {
      var bi := b[..|b| - 1];
      assert (a + b)[..|a + b| - 1] == a + bi;
      assert (a + b)[|a + b| - 1] == b[|b| - 1];
      PickedAppend(a, bi, pick);
    }
  }

  /** A pick that accepts every element unchanged gives back `s`. */
  lemma {:induction false} PickedIdentity<T>(s: seq<T>, pick: T -> Option<T>)
    requires forall k :: 0 <= k < |s| ==> pick(s[k]) == Some(s[k])
    ensures Picked(s, pick) == s
  {
    if |s| > 0 {
      var init := s[..|s| - 1];
      assert forall k :: 0 <= k < |init| ==> init[k] == s[k];
      PickedIdentity(init, pick);
    }
  }

  /** A pick that accepts no more elements than another picks no more values. */
  lemma {:induction false} PickedFewer<T, U, V>(s: seq<T>, a: T -> Option<U>, b: T -> Option<V>)
    requires forall k :: 0 <= k < |s| ==> a(s[k]).Some? ==> b(s[k]).Some?
    ensures |Picked(s, a)| <= |Picked(s, b)|
  {
    if |s| > 0 {
      var init := s[..|s| - 1];
      assert forall k :: 0 <= k < |init| ==> init[k] == s[k];
      PickedFewer(init, a, b);
    }
  }

  /** A pick picks one value per element that `p` accepts, when it accepts
      the same elements. */
  lemma {:induction false} PickedCount<T, U>(s: seq<T>, pick: T -> Option<U>, p: T -> bool)
    requires forall k :: 0 <= k < |s| ==> (pick(s[k]).Some? <==> p(s[k]))
    ensures |Picked(s, pick)| == |Filter(s, p)|
  {
    if |s| > 0 {
      var init := s[..|s| - 1];
      assert forall k :: 0 <= k < |init| ==> init[k] == s[k];
      PickedCount(init, pick, p);
    }
  }

  /** Every picked value comes from an accepted element. */
  lemma {:induction false} PickedSound<T, U>(s: seq<T>, pick: T -> Option<U>, u: U)
    requires u in Picked(s, pick)
    ensures exists k :: 0 <= k < |s| && pick(s[k]) == Some(u)
  {
    var n := |s| - 1;
    var init := s[..n];
    if u in Picked(init, pick) {
      PickedSound(init, pick, u);
      var k :| 0 <= k < |init| && pick(init[k]) == Some(u);
      assert init[k] == s[k];
    } else {
      assert pick(s[n]) == Some(u);
    }
  }

  /** Nothing satisfies `p`, nothing is kept. */
  lemma FilterNone<T>(s: seq<T>, p: T -> bool)
    requires forall k :: 0 <= k < |s| ==> !p(s[k])
    ensures Filter(s, p) == []
  {
    FilterMembers(s, p);
  }

  /** The index of the first element that satisfies `p`, as a loop that
      returns on the first match finds it. */
  function FirstWhere<T>(s: seq<T>, p: T -> bool): (r: Option<nat>)
    ensures r == None <==> forall k :: 0 <= k < |s| ==> !p(s[k])
    ensures r != None ==> r.value < |s| && p(s[r.value]) && forall j :: 0 <= j < r.value ==> !p(s[j])
  {
    if |s| == 0 then None
    else if p(s[0]) then Some(0)
    else
      var rest := FirstWhere(s[1..], p);
      assert forall k :: 1 <= k < |s| ==> s[k] == s[1..][k - 1];
      if rest == None then None else Some(rest.value + 1)
  }

  /** The least index of an element that satisfies `p`. */
  lemma FirstSatisfying<T>(s: seq<T>, p: T -> bool) returns (k: nat)
    requires exists k :: 0 <= k < |s| && p(s[k])
    ensures k < |s| && p(s[k])
    ensures forall j :: 0 <= j < k ==> !p(s[j])
  {
    k := 0;
    while !p(s[k])
      invariant k < |s|
      invariant forall j :: 0 <= j < k ==> !p(s[j])
      invariant exists m :: k <= m < |s| && p(s[m])
      decreases |s| - k
    {
      k := k + 1;
    }
  }

  /** A prefix of elements that fail `p` keeps nothing. */
  lemma {:induction false} FilterPrefixNone<T>(s: seq<T>, k: nat, p: T -> bool)
    requires k <= |s|
    requires forall j :: 0 <= j < k ==> !p(s[j])
    ensures Filter(s[..k], p) == []
    decreases k
  {
    if k > 0 {
      assert s[..k][..k - 1] == s[..k - 1];
      FilterPrefixNone(s, k - 1, p);
    }
  }

  /** The first element kept is the first element that satisfies `p`. */
  lemma FilterFirst<T>(s: seq<T>, p: T -> bool, k: nat)
    requires k < |s| && p(s[k])
    requires forall j :: 0 <= j < k ==> !p(s[j])
    ensures Filter(s, p) != [] && Filter(s, p)[0] == s[k]
  {
    assert Filter(s[..k + 1], p) == [s[k]] by {
      FilterPrefixNone(s, k, p);
      FilterSnoc(s, k, p);
    }
    FilterHead(s, p, k);
  }

  /** Whatever is kept first from a prefix is kept first from the whole. */
  lemma FilterHead<T>(s: seq<T>, p: T -> bool, k: nat)
    requires k < |s| && Filter(s[..k + 1], p) == [s[k]]
    ensures Filter(s, p) != [] && Filter(s, p)[0] == s[k]
  {
    assert s == s[..k + 1] + s[k + 1..];
    FilterAppend(s[..k + 1], s[k + 1..], p);
  }

  // ---------------------------------------------------------------------
  // strip

  /** `str.lstrip()`. */
  function LStrip(s: string): (r: string)
    ensures |r| <= |s| && r == s[|s| - |r|..]
    ensures forall i :: 0 <= i < |s| - |r| ==> IsSpace(s[i])
    ensures r == [] || !IsSpace(r[0])
  {
    if |s| > 0 && IsSpace(s[0]) then LStrip(s[1..]) else s
  }

  /** `str.rstrip()`. */
  function RStrip(s: string): (r: string)
    ensures |r| <= |s| && r == s[..|r|]
    ensures forall i :: |r| <= i < |s| ==> IsSpace(s[i])
    ensures r == [] || !IsSpace(r[|r| - 1])
  {
    if |s| > 0 && IsSpace(s[|s| - 1]) then RStrip(s[..|s| - 1]) else s
  }

  /** `str.strip()`: the slice of `s` between its leading and trailing whitespace. */
  function Strip(s: string): (r: string)
    ensures |r| <= |s|
    ensures Trimmed(r)
    ensures r == [] <==> AllSpace(s)
    ensures var a := |s| - |LStrip(s)|; a + |r| <= |s| && r == s[a..a + |r|]
  {
    var l := LStrip(s);
    var r := RStrip(l);
    assert r == [] ==> AllSpace(s) by {
      if r == [] {
        assert l == [];
      }
    }
    r
  }

  predicate NotSpace(c: char) {
    !IsSpace(c)
  }

  /** Whitespace alone filters out to nothing. */
  lemma SpacesFilterOut(s: string)
    requires AllSpace(s)
    ensures Filter(s, NotSpace) == []
  {
    FilterNone(s, NotSpace);
  }

  lemma LStripKeepsText(s: string)
    ensures Filter(LStrip(s), NotSpace) == Filter(s, NotSpace)
  {
    var l := LStrip(s);
    var pre := s[..|s| - |l|];
    assert s == pre + l;
    FilterAppend(pre, l, NotSpace);
    SpacesFilterOut(pre);
  }

  lemma RStripKeepsText(s: string)
    ensures Filter(RStrip(s), NotSpace) == Filter(s, NotSpace)
  {
    var r := RStrip(s);
    var post := s[|r|..];
    assert s == r + post;
    assert AllSpace(post) by {
      forall i | 0 <= i < |post| ensures IsSpace(post[i]) {
        assert post[i] == s[|r| + i];
      }
    }
    FilterAppend(r, post, NotSpace);
    SpacesFilterOut(post);
  }

  /** `strip()` removes whitespace only: every other character stays, in order. */
  lemma StripKeepsText(s: string)
    ensures Filter(Strip(s), NotSpace) == Filter(s, NotSpace)
  {
    LStripKeepsText(s);
    RStripKeepsText(LStrip(s));
    assert Strip(s) == RStrip(LStrip(s));
  }

  lemma StripOfUnpadded(s: string)
    requires Trimmed(s)
    ensures Strip(s) == s
  {
  }

  lemma StripIdempotent(s: string)
    ensures Strip(Strip(s)) == Strip(s)
  {
    StripOfUnpadded(Strip(s));
  }

  // ---------------------------------------------------------------------
  // re.sub(r'\s+', ' ', s)

  /** Replaces every maximal run of whitespace by one space. */
  function CollapseSpaces(s: string): (r: string)
    ensures |r| <= |s|
    ensures OnlyPlainSpaces(r)
    ensures NoDoubleSpace(r)
    ensures |s| > 0 ==> |r| > 0 && (IsSpace(r[0]) <==> IsSpace(s[0]))
    decreases |s|
  {
    if |s| == 0 then ""
    else if IsSpace(s[0]) then
      var rest := CollapseSpaces(LStrip(s));
      ConsKeepsSpacing(' ', rest);
      " " + rest
    else
      var rest := CollapseSpaces(s[1..]);
      ConsKeepsSpacing(s[0], rest);
      [s[0]] + rest
  }

  /** One step of the collapse over a leading run of whitespace. */
  lemma CollapseKeepsTextSpace(s: string)
    requires |s| > 0 && IsSpace(s[0])
    requires Filter(CollapseSpaces(LStrip(s)), NotSpace) == Filter(LStrip(s), NotSpace)
    ensures Filter(CollapseSpaces(s), NotSpace) == Filter(s, NotSpace)
  {
    var l := LStrip(s);
    LStripKeepsText(s);
    assert CollapseSpaces(s) == [' '] + CollapseSpaces(l);
    FilterAppend([' '], CollapseSpaces(l), NotSpace);
    FilterSingle(' ', NotSpace);
  }

  /** One step of the collapse over a character that is not whitespace. */
  lemma CollapseKeepsTextChar(s: string)
    requires |s| > 0 && !IsSpace(s[0])
    requires Filter(CollapseSpaces(s[1..]), NotSpace) == Filter(s[1..], NotSpace)
    ensures Filter(CollapseSpaces(s), NotSpace) == Filter(s, NotSpace)
  {
    assert s == [s[0]] + s[1..];
    assert CollapseSpaces(s) == [s[0]] + CollapseSpaces(s[1..]);
    FilterAppend([s[0]], CollapseSpaces(s[1..]), NotSpace);
    FilterAppend([s[0]], s[1..], NotSpace);
    FilterSingle(s[0], NotSpace);
  }

  /** The collapse rewrites whitespace only: every other character stays,
      in order. */
  lemma {:induction false} CollapseKeepsText(s: string)
    ensures Filter(CollapseSpaces(s), NotSpace) == Filter(s, NotSpace)
    decreases |s|
  {
    if |s| > 0 {
      if IsSpace(s[0]) {
        CollapseKeepsText(LStrip(s));
        CollapseKeepsTextSpace(s);
      } else {
        CollapseKeepsText(s[1..]);
        CollapseKeepsTextChar(s);
      }
    }
  }

  lemma ConsKeepsSpacing(c: char, t: string)
    requires OnlyPlainSpaces(t) && NoDoubleSpace(t)
    requires IsSpace(c) ==> c == ' ' && (t == [] || !IsSpace(t[0]))
    ensures OnlyPlainSpaces([c] + t) && NoDoubleSpace([c] + t)
  {
    var s := [c] + t;
    forall i: nat | i + 1 < |s| ensures !SpacePairAt(s, i) {
      if i > 0 {
        assert !SpacePairAt(t, i - 1);
      }
    }
  }

  /** A text whose only whitespace is single plain spaces is left alone. */
  lemma {:induction false} CollapseFixpoint(s: string)
    requires OnlyPlainSpaces(s) && NoDoubleSpace(s)
    ensures CollapseSpaces(s) == s
    decreases |s|
  {
    if |s| > 0 {
      assert OnlyPlainSpaces(s[1..]) && NoDoubleSpace(s[1..]) by {
        forall i: nat | i + 1 < |s| - 1 ensures !SpacePairAt(s[1..], i) {
          assert !SpacePairAt(s, i + 1);
          assert s[1..][i] == s[i + 1] && s[1..][i + 1] == s[i + 2];
        }
      }
      if IsSpace(s[0]) {
        assert |s| == 1 || !SpacePairAt(s, 0);
        assert LStrip(s) == s[1..];
      }
      CollapseFixpoint(s[1..]);
    }
  }

  /** A slice of a text whose only whitespace is single plain spaces is such a text too. */
  lemma SliceKeepsSpacing(s: string, a: nat, b: nat)
    requires a <= b <= |s| && OnlyPlainSpaces(s) && NoDoubleSpace(s)
    ensures OnlyPlainSpaces(s[a..b]) && NoDoubleSpace(s[a..b])
  {
    var t := s[a..b];
    forall i: nat | i + 1 < |t| ensures !SpacePairAt(t, i) {
      assert !SpacePairAt(s, a + i);
      assert t[i] == s[a + i] && t[i + 1] == s[a + i + 1];
    }
  }

  /** Stripping keeps a text free of newlines and of double spaces. */
  lemma StripKeepsSpacing(s: string)
    requires OnlyPlainSpaces(s) && NoDoubleSpace(s)
    ensures OnlyPlainSpaces(Strip(s)) && NoDoubleSpace(Strip(s))
  {
    var l := LStrip(s);
    SliceKeepsSpacing(s, |s| - |l|, |s|);
    assert s[|s| - |l|..|s|] == l;
    SliceKeepsSpacing(l, 0, |RStrip(l)|);
  }

  /** Stripping keeps every character property the text had. */
  lemma StripKeeps(s: string, p: char -> bool)
    requires forall i :: 0 <= i < |s| ==> p(s[i])
    ensures forall i :: 0 <= i < |Strip(s)| ==> p(Strip(s)[i])
  {
    var r := Strip(s);
    var a := |s| - |LStrip(s)|;
    assert AllChars(s, p);
    SliceChars(s, a, a + |r|, p);
  }

  /** Stripping keeps a text free of whitespace other than plain spaces. */
  lemma StripKeepsPlain(s: string)
    requires OnlyPlainSpaces(s)
    ensures OnlyPlainSpaces(Strip(s))
  {
    var r := Strip(s);
    SliceAt(s, |s| - |LStrip(s)|, r);
  }

  /** The elements of a slice are those of the sequence, shifted. */
  lemma SliceAt<T>(s: seq<T>, a: nat, r: seq<T>)
    requires a + |r| <= |s| && r == s[a..a + |r|]
    ensures forall i :: 0 <= i < |r| ==> r[i] == s[a + i]
  {
  }

  /** Collapsing keeps every character property that the space has too. */
  lemma {:induction false} CollapseKeeps(s: string, p: char -> bool)
    requires p(' ')
    requires forall i :: 0 <= i < |s| ==> p(s[i])
    ensures forall i :: 0 <= i < |CollapseSpaces(s)| ==> p(CollapseSpaces(s)[i])
    decreases |s|
  {
    if |s| > 0 {
      if IsSpace(s[0]) {
        var l := LStrip(s);
        assert forall i :: 0 <= i < |l| ==> l[i] == s[|s| - |l| + i];
        CollapseKeeps(l, p);
      } else {
        CollapseKeeps(s[1..], p);
      }
    }
  }

  // ---------------------------------------------------------------------
  // Filtering characters

  /** The characters of `s` that satisfy `keep`, in order. */
  function KeepChars(s: string, keep: char -> bool): (r: string)
    ensures |r| <= |s|
    ensures forall i :: 0 <= i < |r| ==> keep(r[i])
    ensures IsSubsequence(r, s)
    decreases |s|
  {
    if |s| == 0 then ""
    else
      var rest := KeepChars(s[1..], keep);
      if keep(s[0]) then
        assert ([s[0]] + rest)[1..] == rest;
        [s[0]] + rest
      else
        SubsequenceCons(rest, s[0], s[1..]);
        assert [s[0]] + s[1..] == s;
        rest
  }

  lemma {:induction false} KeepCharsAll(s: string, keep: char -> bool)
    requires forall i :: 0 <= i < |s| ==> keep(s[i])
    ensures KeepChars(s, keep) == s
    decreases |s|
  {
    if |s| > 0 {
      KeepCharsAll(s[1..], keep);
    }
  }

  /** `KeepChars` is the filter of the characters `keep` accepts. */
  lemma {:induction false} KeepCharsIsFilter(s: string, keep: char -> bool)
    ensures KeepChars(s, keep) == Filter(s, keep)
    decreases |s|
  {
    if |s| > 0 {
      KeepCharsIsFilter(s[1..], keep);
      assert [s[0]] + s[1..] == s;
      FilterAppend([s[0]], s[1..], keep);
      FilterSingle(s[0], keep);
    }
  }

  /** `pattern.sub('', s)` once the positions the pattern matches are known:
      characters whose mask bit is set are deleted, the others kept in order. */
  function DeleteMasked(s: string, mask: seq<bool>): (r: string)
    ensures |r| <= |s|
    ensures IsSubsequence(r, s)
    decreases |s|
  {
    if |s| == 0 then ""
    else
      var tail := if |mask| > 0 then mask[1..] else [];
      var rest := DeleteMasked(s[1..], tail);
      if |mask| > 0 && mask[0] then
        SubsequenceCons(rest, s[0], s[1..]);
        assert [s[0]] + s[1..] == s;
        rest
      else
        assert ([s[0]] + rest)[1..] == rest;
        [s[0]] + rest
  }

  // ---------------------------------------------------------------------
  // split / join

  /** `sep.join(parts)`. */
  function JoinWith(parts: seq<string>, sep: string): string
  {
    if |parts| == 0 then ""
    else if |parts| == 1 then parts[0]
    else parts[0] + sep + JoinWith(parts[1..], sep)
  }

  /** A join is made of the characters of its parts and its separator. */
  lemma {:induction false} JoinKeeps(parts: seq<string>, sep: string, p: char -> bool)
    requires forall k :: 0 <= k < |parts| ==> AllChars(parts[k], p)
    requires AllChars(sep, p)
    ensures AllChars(JoinWith(parts, sep), p)
    decreases |parts|
  {
    if |parts| > 1 {
      var tail := parts[1..];
      assert forall k :: 0 <= k < |tail| ==> tail[k] == parts[k + 1];
      JoinKeeps(tail, sep, p);
      var rest := JoinWith(tail, sep);
      var j := parts[0] + sep + rest;
      assert AllChars(parts[0], p);
      forall i | 0 <= i < |j| ensures p(j[i]) {
        if i < |parts[0]| {
          assert j[i] == parts[0][i];
        } else if i < |parts[0]| + |sep| {
          assert j[i] == sep[i - |parts[0]|];
        } else {
          assert j[i] == rest[i - |parts[0]| - |sep|];
        }
      }
    }
  }

  function SumLengths(parts: seq<string>): nat
  {
    if |parts| == 0 then 0 else |parts[0]| + SumLengths(parts[1..])
  }

  lemma {:induction false} JoinLength(parts: seq<string>, sep: string)
    requires |parts| > 0
    ensures |JoinWith(parts, sep)| == SumLengths(parts) + (|parts| - 1) * |sep|
  {
    if |parts| > 1 {
      JoinLength(parts[1..], sep);
    }
  }

  /** Where `sep.join(parts)` puts the `k`-th part: after each part before
      it and a separator after each of those. */
  function JoinOffset(parts: seq<string>, k: nat, sep: string): nat
    requires k <= |parts|
  {
    if k == 0 then 0 else |parts[0]| + |sep| + JoinOffset(parts[1..], k - 1, sep)
  }

  /** `t` sits in `s` at offset `o`. */
  predicate Occurs(s: string, o: nat, t: string) {
    o + |t| <= |s| && s[o..o + |t|] == t
  }

  lemma OccursAtStart(t: string, b: string)
    ensures Occurs(t + b, 0, t)
  {
    assert (t + b)[..|t|] == t;
  }

  lemma OccursAfter(a: string, b: string, o: nat, t: string)
    requires Occurs(b, o, t)
    ensures Occurs(a + b, |a| + o, t)
  {
    assert (a + b)[|a| + o..|a| + o + |t|] == b[o..o + |t|];
  }

  /** Each part of a join sits at its offset. */
  lemma {:induction false} JoinPieceAt(parts: seq<string>, sep: string, k: nat)
    requires k < |parts|
    ensures Occurs(JoinWith(parts, sep), JoinOffset(parts, k, sep), parts[k])
    decreases k
  {
    if k == 0 {
      if |parts| > 1 {
        OccursAtStart(parts[0], sep + JoinWith(parts[1..], sep));
        assert JoinWith(parts, sep) == parts[0] + (sep + JoinWith(parts[1..], sep));
      } else {
        assert parts[0][0..|parts[0]|] == parts[0];
      }
    } else {
      var tail := parts[1..];
      JoinPieceAt(tail, sep, k - 1);
      assert tail[k - 1] == parts[k];
      OccursAfter(parts[0] + sep, JoinWith(tail, sep), JoinOffset(tail, k - 1, sep), parts[k]);
      assert JoinWith(parts, sep) == (parts[0] + sep) + JoinWith(tail, sep);
    }
  }

  /** Every part but the last is followed by the separator. */
  lemma {:induction false} JoinSepAfter(parts: seq<string>, sep: string, k: nat)
    requires k + 1 < |parts|
    ensures Occurs(JoinWith(parts, sep), JoinOffset(parts, k, sep) + |parts[k]|, sep)
    decreases k
  {
    var tail := parts[1..];
    if k == 0 {
      OccursAtStart(sep, JoinWith(tail, sep));
      OccursAfter(parts[0], sep + JoinWith(tail, sep), 0, sep);
      assert JoinWith(parts, sep) == parts[0] + (sep + JoinWith(tail, sep));
    } else {
      JoinSepAfter(tail, sep, k - 1);
      assert tail[k - 1] == parts[k];
      OccursAfter(parts[0] + sep, JoinWith(tail, sep), JoinOffset(tail, k - 1, sep) + |parts[k]|, sep);
      assert JoinWith(parts, sep) == (parts[0] + sep) + JoinWith(tail, sep);
    }
  }

  lemma {:induction false} JoinAppend(parts: seq<string>, x: string, sep: string)
    ensures JoinWith(parts + [x], sep) == if parts == [] then x else JoinWith(parts, sep) + sep + x
  {
    if |parts| > 1 {
      assert (parts + [x])[1..] == parts[1..] + [x];
      JoinAppend(parts[1..], x, sep);
    } else if |parts| == 1 {
      assert (parts + [x])[1..] == [x];
    }
  }

  /** `a` is `b` with some elements dropped and each kept one possibly shortened. */
  predicate Shrinks(a: seq<string>, b: seq<string>)
    decreases |b|
  {
    if |b| == 0 then a == []
    else
      Shrinks(a, b[..|b| - 1]) ||
      (|a| > 0 && |a[|a| - 1]| <= |b[|b| - 1]| && Shrinks(a[..|a| - 1], b[..|b| - 1]))
  }

  lemma {:induction false} JoinShrinks(a: seq<string>, b: seq<string>, sep: string)
    requires Shrinks(a, b)
    ensures |JoinWith(a, sep)| <= |JoinWith(b, sep)|
    decreases |b|
  {
    if |b| > 0 {
      var bi := b[..|b| - 1];
      assert b == bi + [b[|b| - 1]];
      JoinAppend(bi, b[|b| - 1], sep);
      if Shrinks(a, bi) {
        JoinShrinks(a, bi, sep);
      } else {
        var ai := a[..|a| - 1];
        assert a == ai + [a[|a| - 1]];
        JoinAppend(ai, a[|a| - 1], sep);
        JoinShrinks(ai, bi, sep);
      }
    }
  }

  lemma {:induction false} FilterShrinks(s: seq<string>, p: string -> bool)
    ensures Shrinks(Filter(s, p), s)
  {
    if |s| > 0 {
      var init := s[..|s| - 1];
      FilterShrinks(init, p);
      var f := Filter(init, p);
      if p(s[|s| - 1]) {
        assert (f + [s[|s| - 1]])[..|f|] == f;
      } else {
        assert Filter(s, p) == f;
        assert s[..|s| - 1] == init;
      }
    }
  }

  /** `s.split(sep)` with an explicit one-character separator: never empty,
      and the pieces contain no separator. */
  function SplitOn(s: string, sep: char): (r: seq<string>)
    ensures |r| >= 1
    ensures forall k :: 0 <= k < |r| ==> sep !in r[k]
    decreases |s|
  {
    if |s| == 0 then [""]
    else
      var rest := SplitOn(s[1..], sep);
      if s[0] == sep then [""] + rest
      else [[s[0]] + rest[0]] + rest[1..]
  }

  lemma {:induction false} SplitOnJoin(s: string, sep: char)
    ensures JoinWith(SplitOn(s, sep), [sep]) == s
    decreases |s|
  {
    if |s| > 0 {
      var rest := SplitOn(s[1..], sep);
      SplitOnJoin(s[1..], sep);
      if s[0] == sep {
        assert ([""] + rest)[1..] == rest;
      } else {
        var r := [[s[0]] + rest[0]] + rest[1..];
        assert r[1..] == rest[1..];
        if |rest| > 1 {
          assert JoinWith(rest, [sep]) == rest[0] + [sep] + JoinWith(rest[1..], [sep]);
        }
      }
    }
  }

  lemma {:induction false} SplitOnWithout(s: string, sep: char)
    requires sep !in s
    ensures SplitOn(s, sep) == [s]
    decreases |s|
  {
    if |s| > 0 {
      assert sep !in s[1..] by {
        assert forall c :: c in s[1..] ==> c in s;
      }
      SplitOnWithout(s[1..], sep);
      var rest := SplitOn(s[1..], sep);
      assert s[0] != sep;
      assert SplitOn(s, sep) == [[s[0]] + rest[0]] + rest[1..];
      assert [s[0]] + s[1..] == s;
    }
  }

  /** Splitting a text that starts with a separator-free piece. */
  lemma {:induction false} SplitOnPrefix(w: string, sep: char, t: string)
    requires sep !in w
    ensures SplitOn(w + [sep] + t, sep) == [w] + SplitOn(t, sep)
    decreases |w|
  {
    var s := w + [sep] + t;
    if |w| == 0 {
      assert s == [sep] + t && s[1..] == t;
    } else {
      assert s[1..] == w[1..] + [sep] + t;
      SplitOnPrefix(w[1..], sep, t);
      assert [w[0]] + w[1..] == w;
    }
  }

  /** Joining separator-free pieces and splitting again gives the pieces back. */
  lemma {:induction false} JoinSplitOn(parts: seq<string>, sep: char)
    requires |parts| > 0
    requires forall k :: 0 <= k < |parts| ==> sep !in parts[k]
    ensures SplitOn(JoinWith(parts, [sep]), sep) == parts
  {
    if |parts| == 1 {
      SplitOnWithout(parts[0], sep);
    } else {
      JoinSplitOn(parts[1..], sep);
      SplitOnPrefix(parts[0], sep, JoinWith(parts[1..], [sep]));
      assert parts == [parts[0]] + parts[1..];
    }
  }

  /** `s.split()`: the maximal runs of non-whitespace characters. */
  function WordLength(s: string): (k: nat)
    ensures k <= |s|
    ensures forall i :: 0 <= i < k ==> !IsSpace(s[i])
    ensures k < |s| ==> IsSpace(s[k])
  {
    if |s| == 0 || IsSpace(s[0]) then 0 else 1 + WordLength(s[1..])
  }

  function Words(s: string): (ws: seq<string>)
    ensures ProperWords(ws)
    decreases |s|
  {
    var t := LStrip(s);
    if t == [] then []
    else
      var k := WordLength(t);
      assert k > 0 && |t[k..]| < |s|;
      assert NoSpace(t[..k]) by {
        assert forall i :: 0 <= i < k ==> t[..k][i] == t[i];
      }
      WordsCons(t[..k], Words(t[k..]));
      [t[..k]] + Words(t[k..])
  }

  /** A blank string has no words. */
  lemma WordsOfBlank(s: string)
    requires AllSpace(s)
    ensures Words(s) == []
  {
    assert LStrip(s) == [];
  }

  /** Every character of `s` satisfies `p`. */
  predicate AllChars(s: string, p: char -> bool) {
    forall i :: 0 <= i < |s| ==> p(s[i])
  }

  lemma SliceChars(s: string, a: nat, b: nat, p: char -> bool)
    requires AllChars(s, p) && a <= b <= |s|
    ensures AllChars(s[a..b], p)
  {
    assert forall i :: 0 <= i < b - a ==> s[a..b][i] == s[a + i];
  }

  /** The words of `s` are made of characters of `s`. */
  lemma {:induction false} WordsKeep(s: string, p: char -> bool)
    requires AllChars(s, p)
    ensures forall k :: 0 <= k < |Words(s)| ==> AllChars(Words(s)[k], p)
    decreases |s|
  {
    var t := LStrip(s);
    SliceChars(s, |s| - |t|, |s|, p);
    assert s[|s| - |t|..|s|] == t;
    if t != [] {
      var n := WordLength(t);
      SliceChars(t, 0, n, p);
      SliceChars(t, n, |t|, p);
      assert t[0..n] == t[..n] && t[n..|t|] == t[n..];
      WordsKeep(t[n..], p);
      AllCharsCons(t[..n], Words(t[n..]), p);
      assert Words(s) == [t[..n]] + Words(t[n..]);
    } else {
      assert Words(s) == [];
    }
  }

  lemma AllCharsCons(w: string, rest: seq<string>, p: char -> bool)
    requires AllChars(w, p) && forall k :: 0 <= k < |rest| ==> AllChars(rest[k], p)
    ensures forall k :: 0 <= k < |[w] + rest| ==> AllChars(([w] + rest)[k], p)
  {
    assert forall k :: 1 <= k < |[w] + rest| ==> ([w] + rest)[k] == rest[k - 1];
  }

  lemma WordsCons(w: string, rest: seq<string>)
    requires w != [] && NoSpace(w) && ProperWords(rest)
    ensures ProperWords([w] + rest)
  {
    assert forall j :: 1 <= j < |[w] + rest| ==> ([w] + rest)[j] == rest[j - 1];
  }

  predicate ProperWords(ws: seq<string>) {
    forall k :: 0 <= k < |ws| ==> ws[k] != [] && NoSpace(ws[k])
  }

  lemma {:induction false} WordLengthOfWord(w: string, rest: string)
    requires NoSpace(w) && (rest == [] || IsSpace(rest[0]))
    ensures WordLength(w + rest) == |w|
    decreases |w|
  {
    var s := w + rest;
    if |w| == 0 {
      assert s == rest;
    } else {
      assert s[0] == w[0] && !IsSpace(s[0]);
      assert s[1..] == w[1..] + rest;
      assert NoSpace(w[1..]) by {
        forall i | 0 <= i < |w[1..]| ensures !IsSpace(w[1..][i]) {
          assert w[1..][i] == w[i + 1];
        }
      }
      WordLengthOfWord(w[1..], rest);
      assert WordLength(s) == 1 + WordLength(s[1..]);
    }
  }

  lemma WordsAfterSpace(r: string)
    requires r == [] || !IsSpace(r[0])
    ensures Words(" " + r) == Words(r)
  {
    assert (" " + r)[1..] == r;
  }

  lemma WordsUnfold(t: string)
    requires |t| > 0 && !IsSpace(t[0])
    ensures Words(t) == [t[..WordLength(t)]] + Words(t[WordLength(t)..])
  {
    assert LStrip(t) == t;
  }

  /** Splitting single-space-joined words gives the words back. */
  lemma {:induction false} WordsOfJoin(ws: seq<string>)
    requires ProperWords(ws)
    ensures Words(JoinWith(ws, " ")) == ws
  {
    if |ws| == 1 {
      WordsOfOneWord(ws[0]);
    } else if |ws| > 1 {
      WordsOfJoin(ws[1..]);
      JoinStartsWithWord(ws[1..]);
      WordsOfJoinStep(ws[0], JoinWith(ws[1..], " "));
      assert ws == [ws[0]] + ws[1..];
    }
  }

  lemma WordsOfOneWord(w: string)
    requires w != [] && NoSpace(w)
    ensures Words(w) == [w]
  {
    WordLengthOfWord(w, "");
    assert w + "" == w;
    WordsUnfold(w);
    assert w[|w|..] == "";
  }

  lemma WordsOfJoinStep(w: string, rest: string)
    requires w != [] && NoSpace(w)
    requires |rest| > 0 && !IsSpace(rest[0])
    ensures Words(w + " " + rest) == [w] + Words(rest)
  {
    var t := w + " " + rest;
    WordLengthOfWord(w, " " + rest);
    assert t == w + (" " + rest);
    WordsUnfold(t);
    assert t[..|w|] == w;
    assert t[|w|..] == " " + rest;
    WordsAfterSpace(rest);
  }

  lemma JoinStartsWithWord(ws: seq<string>)
    requires |ws| > 0 && ProperWords(ws)
    ensures var j := JoinWith(ws, " "); |j| > 0 && !IsSpace(j[0]) && !IsSpace(j[|j| - 1])
    decreases |ws|
  {
    if |ws| > 1 {
      JoinStartsWithWord(ws[1..]);
    }
  }

  lemma {:induction false} JoinOfWordsShape(ws: seq<string>)
    requires ProperWords(ws)
    ensures var j := JoinWith(ws, " "); OnlyPlainSpaces(j) && NoDoubleSpace(j)
  {
    if |ws| > 1 {
      JoinOfWordsShape(ws[1..]);
      JoinStartsWithWord(ws[1..]);
      var w := ws[0];
      var rest := JoinWith(ws[1..], " ");
      var j := w + " " + rest;
      forall i | 0 <= i < |j| && IsSpace(j[i]) ensures j[i] == ' ' {
        if i > |w| {
          assert j[i] == rest[i - |w| - 1];
        }
      }
      forall i: nat | i + 1 < |j| ensures !SpacePairAt(j, i) {
        if i > |w| {
          assert !SpacePairAt(rest, i - |w| - 1);
          assert j[i] == rest[i - |w| - 1] && j[i + 1] == rest[i - |w|];
        }
      }
    }
  }

  /** `[l.strip() for l in lines]`. */
  function StripAll(lines: seq<string>): (r: seq<string>)
    ensures |r| == |lines|
    ensures forall k :: 0 <= k < |r| ==> r[k] == Strip(lines[k])
  {
    seq(|lines|, k requires 0 <= k < |lines| => Strip(lines[k]))
  }

  predicate NonEmpty(s: string) {
    s != []
  }

  /** Stripping every line never makes the lines longer in total. */
  lemma {:induction false} StripAllShorter(lines: seq<string>)
    ensures SumLengths(StripAll(lines)) <= SumLengths(lines)
  {
    if |lines| > 0 {
      StripAllShorter(lines[1..]);
      assert StripAll(lines)[1..] == StripAll(lines[1..]);
    }
  }

  /** `'\n'.join(l.strip() for l in s.split('\n') if l.strip())`. */
  function StripLines(s: string): string {
    JoinWith(Filter(StripAll(SplitOn(s, '\n')), NonEmpty), "\n")
  }

  /** On a single-line text, stripping line by line is plain stripping. */
  lemma StripLinesSingleLine(s: string)
    requires '\n' !in s
    ensures StripLines(s) == Strip(s)
  {
    SplitOnWithout(s, '\n');
    var ls := StripAll([s]);
    assert ls == [Strip(s)] && ls[..0] == [];
  }

  /** Joining the stripped non-empty lines never lengthens a text. */
  lemma StripLinesShorter(s: string)
    ensures |StripLines(s)| <= |s|
  {
    var lines := SplitOn(s, '\n');
    var stripped := StripAll(lines);
    SplitOnJoin(s, '\n');
    FilterShrinks(stripped, NonEmpty);
    JoinShrinks(Filter(stripped, NonEmpty), stripped, "\n");
    JoinLength(stripped, "\n");
    JoinLength(lines, "\n");
    StripAllShorter(lines);
  }

  // ---------------------------------------------------------------------
  // Paths

  /** Index of the last occurrence of `c`, or -1. */
  function LastIndexOf(s: string, c: char): (i: int)
    ensures -1 <= i < |s|
    ensures i >= 0 ==> s[i] == c
    ensures forall j :: i < j < |s| ==> s[j] != c
  {
    if |s| == 0 then -1
    else if s[|s| - 1] == c then |s| - 1
    else LastIndexOf(s[..|s| - 1], c)
  }

  /** `Path.name`: the last '/'-separated component. */
  function BaseName(path: string): string {
    path[LastIndexOf(path, '/') + 1..]
  }

  /** `Path.suffix`: from the last '.' of the name, unless that dot starts or ends it. */
  function Suffix(path: string): (r: string)
    ensures r == [] || (r[0] == '.' && |r| >= 2)
  {
    var name := BaseName(path);
    var i := LastIndexOf(name, '.');
    if 0 < i < |name| - 1 then name[i..] else ""
  }
}
