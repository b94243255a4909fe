/**
 * Byte-string helpers: ASCII character classes and case mapping, lexicographic
 * comparison, clamped substrings, searching, splitting and trimming.
 *
 * A Go string is a sequence of bytes; here it is a `seq<bv8>`, so the uint8
 * wrap-around arithmetic of the character-class tests is modelled exactly.
 * Caller-supplied callbacks (`issep`, `handler`) are pure function parameters;
 * a callback that Go allows to be nil is an `Option` of a function.
 */
module ByteStrings {

  type Bytes = seq<bv8>

  datatype Option<+T> = None | Some(value: T)

  const UpperA: bv8 := 0x41
  const UpperZ: bv8 := 0x5A
  const LowerA: bv8 := 0x61
  const LowerZ: bv8 := 0x7A
  const Digit0: bv8 := 0x30
  const Digit9: bv8 := 0x39
  /** 'A' ^ 'a': the one bit in which the two cases of an ASCII letter differ */
  const CaseBit: bv8 := 0x20

  /** The largest value of Go's 64-bit `int`. */
  const MaxInt: int := 0x7fff_ffff_ffff_ffff

  // ---------------------------------------------------------------------------
  // Character classes and case mapping
  // ---------------------------------------------------------------------------

  predicate IsUpperAscii(ch: bv8) { UpperA <= ch <= UpperZ }
  predicate IsLowerAscii(ch: bv8) { LowerA <= ch <= LowerZ }

  /** Folds the case bit in and tests, with uint8 wrap-around, whether the result lies in 'a'..'z'. */
  function IsAlpha(ch: bv8): (r: bool)
    ensures r <==> IsUpperAscii(ch) || IsLowerAscii(ch)
  {
    var t := (ch | CaseBit) - LowerA;
    t <= LowerZ - LowerA
  }

  /** Control characters and the space, but not NUL. */
  function IsWhite(ch: bv8): (r: bool)
    ensures r <==> 0x01 <= ch <= 0x20
  {
    ch != 0 && ch <= 0x20
  }

  function ToLower(ch: bv8): (r: bv8)
    ensures IsUpperAscii(ch) ==> r == ch + CaseBit && IsLowerAscii(r)
    ensures !IsUpperAscii(ch) ==> r == ch
  {
    var t := ch | CaseBit;
    if t - LowerA <= LowerZ - LowerA then t else ch
  }

  function ToUpper(ch: bv8): (r: bv8)
    ensures IsLowerAscii(ch) ==> r == ch - CaseBit && IsUpperAscii(r)
    ensures !IsLowerAscii(ch) ==> r == ch
  {
    var t := ch & !CaseBit;
    if t - UpperA <= LowerZ - LowerA then t else ch
  }

  lemma CaseMappingsIdempotent(ch: bv8)
    ensures ToLower(ToLower(ch)) == ToLower(ch)
    ensures ToUpper(ToUpper(ch)) == ToUpper(ch)
    ensures IsUpperAscii(ch) ==> ToUpper(ToLower(ch)) == ch
    ensures IsLowerAscii(ch) ==> ToLower(ToUpper(ch)) == ch
  {
  }

  /** Go's `min`: the smaller of the two arguments. */
  function Min(a: int, b: int): (r: int)
    ensures r <= a && r <= b && (r == a || r == b)
  {
    if a < b then a else b
  }

  // ---------------------------------------------------------------------------
  // Digits
  // ---------------------------------------------------------------------------

  predicate IsDigit(ch: bv8) { Digit0 <= ch <= Digit9 }

  method StrIsdigit(value: Bytes) returns (r: bool)
    ensures r <==> |value| > 0 && forall i :: 0 <= i < |value| ==> IsDigit(value[i])
  {
    var i := 0;
    while i < |value|
      invariant 0 <= i <= |value|
      invariant forall k :: 0 <= k < i ==> IsDigit(value[k])
    {
      if value[i] < Digit0 || Digit9 < value[i] {
        return false;
      }
      i := i + 1;
    }
    return |value| > 0;
  }

  // ---------------------------------------------------------------------------
  // Comparison
  // ---------------------------------------------------------------------------

  /** Lexicographic byte order: -1, 0 or 1, a proper prefix coming first. */
  function LexCompare(a: Bytes, b: Bytes): (r: int)
    ensures -1 <= r <= 1
  {
    if a == [] && b == [] then 0
    else if a == [] then -1
    else if b == [] then 1
    else if a[0] < b[0] then -1
    else if b[0] < a[0] then 1
    else LexCompare(a[1..], b[1..])
  }

  lemma {:induction false} LexCompareZeroIffEqual(a: Bytes, b: Bytes)
    ensures LexCompare(a, b) == 0 <==> a == b
  {
    if a != [] && b != [] && a[0] == b[0] {
      LexCompareZeroIffEqual(a[1..], b[1..]);
      assert a == [a[0]] + a[1..] && b == [b[0]] + b[1..];
    }
  }

  lemma {:induction false} LexCompareAntisymmetric(a: Bytes, b: Bytes)
    ensures LexCompare(b, a) == -LexCompare(a, b)
  {
    if a != [] && b != [] && a[0] == b[0] {
      LexCompareAntisymmetric(a[1..], b[1..]);
    }
  }

  lemma {:induction false} LexCompareTransitive(a: Bytes, b: Bytes, c: Bytes)
    requires LexCompare(a, b) < 0 && LexCompare(b, c) < 0
    ensures LexCompare(a, c) < 0
  {
    if a != [] && b != [] && c != [] && a[0] == b[0] && b[0] == c[0] {
      LexCompareTransitive(a[1..], b[1..], c[1..]);
    }
  }

  lemma LexCompareDropPrefix(a: Bytes, b: Bytes, i: nat)
    requires i < |a| && i < |b| && a[i] == b[i]
    ensures LexCompare(a[i..], b[i..]) == LexCompare(a[i+1..], b[i+1..])
  {
    assert a[i..][1..] == a[i+1..] && b[i..][1..] == b[i+1..];
  }

  method StrCmp(a: Bytes, b: Bytes) returns (r: int)
    ensures r == LexCompare(a, b)
  {
    var size := Min(|a|, |b|);
    var i := 0;
    while i < size
      invariant 0 <= i <= size
      invariant LexCompare(a[i..], b[i..]) == LexCompare(a, b)
    {
      if a[i] != b[i] {
        if b[i] < a[i] {
          return 1;
        }
        return -1;
      }
      LexCompareDropPrefix(a, b, i);
      i := i + 1;
    }
    if |a| == |b| {
      return 0;
    }
    if |a| < |b| {
      return -1;
    }
    return 1;
  }

  /** The byte string with every byte passed through ToLower. */
  function Lower(s: Bytes): (r: Bytes)
    ensures |r| == |s| && forall i :: 0 <= i < |s| ==> r[i] == ToLower(s[i])
  {
    seq(|s|, i requires 0 <= i < |s| => ToLower(s[i]))
  }

  method StrCasecmp(a: Bytes, b: Bytes) returns (r: int)
    ensures r == LexCompare(Lower(a), Lower(b))
  {
    var la, lb := Lower(a), Lower(b);
    var size := Min(|a|, |b|);
    var i := 0;
    while i < size
      invariant 0 <= i <= size
      invariant LexCompare(la[i..], lb[i..]) == LexCompare(la, lb)
    {
      var lowerA := ToLower(a[i]);
      var lowerB := ToLower(b[i]);
      if lowerA == lowerB {
        LexCompareDropPrefix(la, lb, i);
        i := i + 1;
        continue;
      }
      if lowerB < lowerA {
        return 1;
      }
      return -1;
    }
    if |a| == |b| {
      return 0;
    }
    if |a| < |b| {
      return -1;
    }
    return 1;
  }

  /** Case-insensitive equality is equality of the lower-cased strings. */
  lemma CasecmpZeroIffLowerEqual(a: Bytes, b: Bytes)
    ensures LexCompare(Lower(a), Lower(b)) == 0 <==> Lower(a) == Lower(b)
  {
    LexCompareZeroIffEqual(Lower(a), Lower(b));
  }

  // ---------------------------------------------------------------------------
  // Substrings
  // ---------------------------------------------------------------------------

  /**
   * Go panics on a negative start or size, so both are demanded non-negative.
   * Go adds the clamped start and `size` as 64-bit `int`s; a sum past `MaxInt`
   * wraps negative and the slice panics, so the sum is demanded in range.
   */
  function StrSubstr(str: Bytes, begin: int, size: int): (r: Bytes)
    requires begin >= 0 && size >= 0 && Min(begin, |str|) + size <= MaxInt
    ensures begin >= |str| ==> r == []
    ensures begin < |str| ==> |r| == Min(size, |str| - begin)
    ensures forall i :: 0 <= i < |r| ==> r[i] == str[begin + i]
  {
    var b := Min(begin, |str|);
    str[b..Min(|str|, b + size)]
  }

  function StrRsubstr(str: Bytes, size: int): (r: Bytes)
    requires size >= 0
    ensures |r| == Min(|str|, size)
    ensures str == str[..|str| - |r|] + r
  {
    var n := Min(|str|, size);
    str[|str| - n..]
  }

  // ---------------------------------------------------------------------------
  // Searching
  // ---------------------------------------------------------------------------

  method StrChr(str: Bytes, ch: bv8) returns (r: int)
    ensures r == -1 <==> ch !in str
    ensures r != -1 ==> 0 <= r < |str| && str[r] == ch
    ensures forall k :: 0 <= k < r ==> str[k] != ch
  {
    var offset := 0;
    while offset < |str|
      invariant 0 <= offset <= |str|
      invariant forall k :: 0 <= k < offset ==> str[k] != ch
    {
      if str[offset] == ch {
        return offset;
      }
      offset := offset + 1;
    }
    return -1;
  }

  method StrRchr(str: Bytes, ch: bv8) returns (r: int)
    ensures r == -1 <==> ch !in str
    ensures r != -1 ==> 0 <= r < |str| && str[r] == ch
    ensures forall k :: r < k < |str| ==> str[k] != ch
  {
    var offset := |str|;
    while offset > 0
      invariant 0 <= offset <= |str|
      invariant forall k :: offset <= k < |str| ==> str[k] != ch
    {
      if str[offset - 1] == ch {
        return offset - 1;
      }
      offset := offset - 1;
    }
    return -1;
  }

  /** `target` occurs in `source` at offset `off`. */
  predicate OccursAt(source: Bytes, target: Bytes, off: int)
  {
    0 <= off && off + |target| <= |source| && source[off..off + |target|] == target
  }

  function FirstMatchFrom(source: Bytes, target: Bytes, off: nat): (r: int)
    ensures r == -1 || (off <= r && OccursAt(source, target, r))
    ensures forall o :: off <= o && (r == -1 || o < r) ==> !OccursAt(source, target, o)
    decreases |source| - off
  {
    if off + |target| > |source| then -1
    else if source[off..off + |target|] == target then off
    else FirstMatchFrom(source, target, off + 1)
  }

  /** The smallest offset at which `target` occurs, or -1. */
  function FirstMatch(source: Bytes, target: Bytes): (r: int)
    ensures r == -1 <==> forall o :: !OccursAt(source, target, o)
    ensures r != -1 ==> OccursAt(source, target, r) && forall o :: 0 <= o < r ==> !OccursAt(source, target, o)
  {
    if |target| == 0 then
      assert OccursAt(source, target, 0);
      0
    else FirstMatchFrom(source, target, 0)
  }

  function LastMatchFrom(source: Bytes, target: Bytes, off: int): (r: int)
    requires off < |source| - |target| + 1
    ensures r == -1 || (r <= off && OccursAt(source, target, r))
    ensures forall o :: o <= off && (r == -1 || r < o) ==> !OccursAt(source, target, o)
    decreases off + 1
  {
    if off < 0 then -1
    else if source[off..off + |target|] == target then off
    else LastMatchFrom(source, target, off - 1)
  }

  /** The largest offset at which `target` occurs, or -1. */
  function LastMatch(source: Bytes, target: Bytes): (r: int)
    ensures r == -1 <==> forall o :: !OccursAt(source, target, o)
    ensures r != -1 ==> OccursAt(source, target, r) && forall o :: r < o ==> !OccursAt(source, target, o)
  {
    if |target| == 0 then
      assert OccursAt(source, target, |source|);
      |source|
    else LastMatchFrom(source, target, |source| - |target|)
  }

  /** Compares `target` with the bytes of `source` at `off`, as the inner loop of the searches does. */
  method MatchesAt(source: Bytes, target: Bytes, off: int) returns (m: bool)
    requires 0 <= off && off + |target| <= |source|
    ensures m <==> OccursAt(source, target, off)
  {
    var i := 0;
    while i < |target| && source[off + i] == target[i]
      invariant 0 <= i <= |target|
      invariant source[off..off + i] == target[..i]
    {
      assert source[off..off + i + 1] == source[off..off + i] + [source[off + i]];
      assert target[..i + 1] == target[..i] + [target[i]];
      i := i + 1;
    }
    m := i == |target|;
    if !m {
      assert source[off..off + |target|][i] != target[i];
    }
  }

  method StrStr(source: Bytes, target: Bytes) returns (r: int)
    ensures r == FirstMatch(source, target)
  {
    if |target| == 0 {
      return 0;
    }
    var matchSize := |source| - |target|;
    if matchSize < 0 {
      return -1;
    }
    var off := 0;
    while off <= matchSize
      invariant 0 <= off <= matchSize + 1
      invariant FirstMatchFrom(source, target, off) == FirstMatch(source, target)
    {
      var found := MatchesAt(source, target, off);
      if found {
        return off;
      }
      off := off + 1;
    }
    return -1;
  }

  method StrRstr(source: Bytes, target: Bytes) returns (r: int)
    ensures r == LastMatch(source, target)
  {
    if |target| == 0 {
      return |source|;
    }
    var matchBegin := |source| - |target|;
    if matchBegin < 0 {
      return -1;
    }
    var off := matchBegin;
    while off >= 0
      invariant -1 <= off <= matchBegin
      invariant LastMatchFrom(source, target, off) == LastMatch(source, target)
    {
      var found := MatchesAt(source, target, off);
      if found {
        return off;
      }
      off := off - 1;
    }
    return -1;
  }

  // ---------------------------------------------------------------------------
  // Splitting into runs of non-separator bytes
  // ---------------------------------------------------------------------------

  predicate NoSep(s: Bytes, issep: bv8 -> bool)
  {
    forall k :: 0 <= k < |s| ==> !issep(s[k])
  }

  /** Length of the longest separator-free prefix. */
  function RunLength(s: Bytes, issep: bv8 -> bool): (n: nat)
    ensures n <= |s| && NoSep(s[..n], issep)
    ensures n < |s| ==> issep(s[n])
  {
    if s == [] || issep(s[0]) then 0
    else
      var n := RunLength(s[1..], issep);
      assert s[..n + 1] == [s[0]] + s[1..][..n];
      n + 1
  }

  /** The maximal runs of non-separator bytes of `s`, left to right. */
  function Runs(s: Bytes, issep: bv8 -> bool): (r: seq<Bytes>)
    decreases |s|
  {
    if s == [] then []
    else if issep(s[0]) then Runs(s[1..], issep)
    else
      var n := RunLength(s, issep);
      [s[..n]] + Runs(s[n..], issep)
  }

  lemma {:induction false} RunsAreNonEmptyAndSeparatorFree(s: Bytes, issep: bv8 -> bool)
    ensures forall i :: 0 <= i < |Runs(s, issep)| ==> Runs(s, issep)[i] != [] && NoSep(Runs(s, issep)[i], issep)
    decreases |s|
  {
    if s == [] {
    } else if issep(s[0]) {
      RunsAreNonEmptyAndSeparatorFree(s[1..], issep);
    } else {
      var n := RunLength(s, issep);
      RunsAreNonEmptyAndSeparatorFree(s[n..], issep);
    }
  }

  /** `r` stands in `s` at offset `o` with a separator or an end of `s` on each side. */
  ghost predicate FencedAt(s: Bytes, r: Bytes, o: int, issep: bv8 -> bool)
  {
    && 0 <= o <= |s| - |r|
    && s[o..o + |r|] == r
    && (o == 0 || issep(s[o - 1]))
    && (o + |r| == |s| || issep(s[o + |r|]))
  }

  /** `r` stands in `s` somewhere with a separator or an end of `s` on each side. */
  ghost predicate Fenced(s: Bytes, r: Bytes, issep: bv8 -> bool)
  {
    exists o :: FencedAt(s, r, o, issep)
  }

  /** Every piece of `rs` stands fenced in `s`. */
  ghost predicate AllFenced(s: Bytes, rs: seq<Bytes>, issep: bv8 -> bool)
  {
    forall i :: 0 <= i < |rs| ==> Fenced(s, rs[i], issep)
  }

  /**
   * The runs are maximal: each one stands in `s` between separators (or the
   * ends of `s`), so no run could be extended by a neighbouring byte.
   */
  lemma RunsAreMaximal(s: Bytes, issep: bv8 -> bool)
    ensures forall i :: 0 <= i < |Runs(s, issep)| ==> Fenced(s, Runs(s, issep)[i], issep)
  {
    RunsFencedFrom(s, 0, issep);
    assert s[0..] == s;
  }

  /** The runs of a suffix that starts after a separator stand fenced in `s` itself. */
  lemma {:induction false} RunsFencedFrom(s: Bytes, b: nat, issep: bv8 -> bool)
    requires b <= |s| && (b == 0 || issep(s[b - 1]))
    ensures AllFenced(s, Runs(s[b..], issep), issep)
    decreases |s| - b, 1
  {
    if b == |s| {
      assert s[b..] == [];
    } else if issep(s[b]) {
      RunsSkipSeparator(s, b, issep);
      RunsFencedFrom(s, b + 1, issep);
    } else {
      RunFencedFrom(s, b, issep);
    }
  }

  /** The same, for a suffix that starts with a run: the run is fenced, and so are the runs after it. */
  lemma {:induction false} RunFencedFrom(s: Bytes, b: nat, issep: bv8 -> bool)
    requires b < |s| && (b == 0 || issep(s[b - 1])) && !issep(s[b])
    ensures AllFenced(s, Runs(s[b..], issep), issep)
    decreases |s| - b, 0
  {
    var e := RunEnd(s, b, issep);
    FencedRun(s, b, e, issep);
    if e < |s| {
      RunsCloseRun(s, b, e, issep);
      RunsFencedFrom(s, e + 1, issep);
      AllFencedCons(s, s[b..e], Runs(s[e + 1..], issep), issep);
    } else {
      RunsLastRun(s, b, issep);
      AllFencedCons(s, s[b..], [], issep);
    }
  }

  /** Where the run starting at `b` ends: it holds no separator and stops at one or at the end of `s`. */
  lemma RunEnd(s: Bytes, b: nat, issep: bv8 -> bool) returns (e: nat)
    requires b < |s| && !issep(s[b])
    ensures b < e <= |s| && NoSep(s[b..e], issep) && (e < |s| ==> issep(s[e]))
    ensures e == |s| ==> s[b..e] == s[b..] && NoSep(s[b..], issep)
  {
    var n := RunLength(s[b..], issep);
    e := b + n;
    assert s[b..][..n] == s[b..e];
  }

  /** A stretch with a separator or an end of `s` on each side stands fenced in `s`. */
  lemma FencedRun(s: Bytes, b: nat, e: nat, issep: bv8 -> bool)
    requires b <= e <= |s| && (b == 0 || issep(s[b - 1])) && (e == |s| || issep(s[e]))
    ensures Fenced(s, s[b..e], issep)
  {
    assert FencedAt(s, s[b..e], b, issep);
  }

  lemma AllFencedCons(s: Bytes, r: Bytes, rs: seq<Bytes>, issep: bv8 -> bool)
    requires Fenced(s, r, issep) && AllFenced(s, rs, issep)
    ensures AllFenced(s, [r] + rs, issep)
  {
    forall i | 0 <= i < |[r] + rs|
      ensures Fenced(s, ([r] + rs)[i], issep)
    {
      if i > 0 {
        assert ([r] + rs)[i] == rs[i - 1];
      }
    }
  }

  /** Every byte of every run is a byte of `s`: runs cover only non-separators, in order. */
  lemma {:induction false} RunsConcatenateToNonSeparators(s: Bytes, issep: bv8 -> bool)
    ensures Flatten(Runs(s, issep)) == Filter(s, issep)
    decreases |s|
  {
    if s == [] {
    } else if issep(s[0]) {
      RunsConcatenateToNonSeparators(s[1..], issep);
      assert Filter(s, issep) == Filter(s[1..], issep);
    } else {
      var n := RunLength(s, issep);
      RunsConcatenateToNonSeparators(s[n..], issep);
      FilterAppend(s[..n], s[n..], issep);
      FilterNoSep(s[..n], issep);
      assert s == s[..n] + s[n..];
    }
  }

  function Flatten(pieces: seq<Bytes>): Bytes
  {
    if pieces == [] then [] else pieces[0] + Flatten(pieces[1..])
  }

  /** The non-separator bytes of `s`, in order. */
  function Filter(s: Bytes, issep: bv8 -> bool): Bytes
  {
    if s == [] then [] else (if issep(s[0]) then [] else [s[0]]) + Filter(s[1..], issep)
  }

  lemma {:induction false} FilterAppend(a: Bytes, b: Bytes, issep: bv8 -> bool)
    ensures Filter(a + b, issep) == Filter(a, issep) + Filter(b, issep)
  {
    if a == [] {
      assert a + b == b;
    } else {
      var head := if issep(a[0]) then [] else [a[0]];
      assert (a + b)[0] == a[0] && (a + b)[1..] == a[1..] + b;
      FilterAppend(a[1..], b, issep);
      calc {
        Filter(a + b, issep);
        head + Filter(a[1..] + b, issep);
        head + (Filter(a[1..], issep) + Filter(b, issep));
        (head + Filter(a[1..], issep)) + Filter(b, issep);
        Filter(a, issep) + Filter(b, issep);
      }
    }
  }

  lemma {:induction false} FilterNoSep(a: Bytes, issep: bv8 -> bool)
    requires NoSep(a, issep)
    ensures Filter(a, issep) == a
  {
    if a != [] {
      FilterNoSep(a[1..], issep);
    }
  }

  /** A separator-free run that ends at a separator (or at the end) is the first run. */
  lemma RunsSplitAtRun(s: Bytes, n: nat, issep: bv8 -> bool)
    requires 0 < n <= |s| && NoSep(s[..n], issep) && (n < |s| ==> issep(s[n]))
    ensures Runs(s, issep) == [s[..n]] + Runs(s[n..], issep)
  {
    RunLengthIs(s, n, issep);
  }

  lemma {:induction false} RunLengthIs(s: Bytes, n: nat, issep: bv8 -> bool)
    requires n <= |s| && NoSep(s[..n], issep) && (n < |s| ==> issep(s[n]))
    ensures RunLength(s, issep) == n
  {
    if n > 0 {
      assert s[1..][..n - 1] == s[1..n];
      RunLengthIs(s[1..], n - 1, issep);
    }
  }

  lemma RunsSkipSeparator(s: Bytes, i: nat, issep: bv8 -> bool)
    requires i < |s| && issep(s[i])
    ensures Runs(s[i..], issep) == Runs(s[i + 1..], issep)
  {
    assert s[i..][1..] == s[i + 1..];
  }

  /** Closing a run at a separator: the run is the first piece, scanning resumes after the separator. */
  lemma RunsCloseRun(s: Bytes, begin: nat, i: nat, issep: bv8 -> bool)
    requires begin < i < |s| && NoSep(s[begin..i], issep) && issep(s[i])
    ensures Runs(s[begin..], issep) == [s[begin..i]] + Runs(s[i + 1..], issep)
  {
    var t := s[begin..];
    assert t[..i - begin] == s[begin..i];
    assert t[i - begin..] == s[i..];
    RunsSplitAtRun(t, i - begin, issep);
    RunsSkipSeparator(s, i, issep);
  }

  /** A run that reaches the end of the string is the last piece. */
  lemma RunsLastRun(s: Bytes, begin: nat, issep: bv8 -> bool)
    requires begin < |s| && NoSep(s[begin..], issep)
    ensures Runs(s[begin..], issep) == [s[begin..]]
  {
    var t := s[begin..];
    assert t[..|t|] == t;
    RunsSplitAtRun(t, |t|, issep);
    assert t[|t|..] == [];
  }

  lemma NoSepExtend(s: Bytes, begin: nat, i: nat, issep: bv8 -> bool)
    requires begin <= i < |s| && NoSep(s[begin..i], issep) && !issep(s[i])
    ensures NoSep(s[begin..i + 1], issep)
  {
    assert s[begin..i + 1] == s[begin..i] + [s[i]];
  }

  method StrSlice(source: Bytes, issep: bv8 -> bool) returns (result: seq<Bytes>)
    ensures result == Runs(source, issep)
  {
    result := [];
    var begin := -1;
    var i := 0;
    while i < |source|
      invariant 0 <= i <= |source|
      invariant -1 <= begin < i
      invariant result + Runs(source[if begin == -1 then i else begin..], issep) == Runs(source, issep)
      invariant begin != -1 ==> NoSep(source[begin..i], issep)
    {
      if issep(source[i]) {
        if begin > -1 {
          RunsCloseRun(source, begin, i, issep);
          result := result + [source[begin..i]];
          begin := -1;
        } else {
          RunsSkipSeparator(source, i, issep);
        }
      } else {
        if begin == -1 {
          begin := i;
          assert source[begin..i] == [];
        }
        NoSepExtend(source, begin, i, issep);
      }
      i := i + 1;
    }
    if begin > -1 && begin < |source| {
      assert source[begin..i] == source[begin..];
      RunsLastRun(source, begin, issep);
      result := result + [source[begin..]];
    } else {
      assert source[i..] == [];
      assert result + [] == result;
    }
  }

  /** The pieces up to and including the first one on which `stop` is true. */
  function TakeUntil(pieces: seq<Bytes>, stop: Bytes -> bool): seq<Bytes>
  {
    if pieces == [] then []
    else if stop(pieces[0]) then [pieces[0]]
    else [pieces[0]] + TakeUntil(pieces[1..], stop)
  }

  /** TakeUntil keeps a prefix of the pieces; it cuts short only right after a piece on which `stop` holds. */
  lemma {:induction false} TakeUntilIsStopPrefix(pieces: seq<Bytes>, stop: Bytes -> bool)
    ensures var r := TakeUntil(pieces, stop);
      |r| <= |pieces| && r == pieces[..|r|] &&
      (forall i :: 0 <= i < |r| - 1 ==> !stop(r[i])) &&
      (|r| < |pieces| ==> r != [] && stop(r[|r| - 1]))
  {
    if pieces != [] && !stop(pieces[0]) {
      TakeUntilIsStopPrefix(pieces[1..], stop);
    }
  }

  lemma TakeUntilStep(pieces: seq<Bytes>, stop: Bytes -> bool)
    requires pieces != [] && !stop(pieces[0])
    ensures TakeUntil(pieces, stop) == [pieces[0]] + TakeUntil(pieces[1..], stop)
  {
  }

  lemma TakeUntilStops(pieces: seq<Bytes>, stop: Bytes -> bool)
    requires pieces != [] && stop(pieces[0])
    ensures TakeUntil(pieces, stop) == [pieces[0]]
  {
  }

  lemma TakeUntilSingle(piece: Bytes, stop: Bytes -> bool)
    ensures TakeUntil([piece], stop) == [piece]
  {
    assert [piece][1..] == [];
  }

  /** StrSplit's loop step at a separator that closes a run: the run is handed over, and unless `stop` holds on it scanning goes on past the separator. */
  lemma SplitCloseRun(s: Bytes, begin: nat, i: nat, issep: bv8 -> bool, stop: Bytes -> bool, handed: seq<Bytes>, goal: seq<Bytes>)
    requires begin < i < |s| && NoSep(s[begin..i], issep) && issep(s[i])
    requires handed + TakeUntil(Runs(s[begin..], issep), stop) == goal
    ensures stop(s[begin..i]) ==> handed + [s[begin..i]] == goal
    ensures !stop(s[begin..i]) ==> (handed + [s[begin..i]]) + TakeUntil(Runs(s[i + 1..], issep), stop) == goal
  {
    RunsCloseRun(s, begin, i, issep);
    var rs := Runs(s[begin..], issep);
    assert rs[0] == s[begin..i] && rs[1..] == Runs(s[i + 1..], issep);
    if !stop(s[begin..i]) {
      var tail := TakeUntil(rs[1..], stop);
      assert handed + ([rs[0]] + tail) == (handed + [rs[0]]) + tail;
    }
  }

  /**
   * The pieces StrSplit hands to `handler`, in order: the runs of non-separator
   * bytes until the handler returns true on one. A nil callback means no call.
   */
  method StrSplit(source: Bytes, issep: Option<bv8 -> bool>, handler: Option<Bytes -> bool>)
    returns (handed: seq<Bytes>)
    ensures issep.None? || handler.None? ==> handed == []
    ensures issep.Some? && handler.Some? ==> handed == TakeUntil(Runs(source, issep.value), handler.value)
  {
    handed := [];
    if handler.None? || issep.None? {
      return;
    }
    var sep, stop := issep.value, handler.value;
    ghost var goal := TakeUntil(Runs(source, sep), stop);
    var begin := -1;
    var i := 0;
    while i < |source|
      invariant 0 <= i <= |source|
      invariant -1 <= begin < i
      invariant handed + TakeUntil(Runs(source[if begin == -1 then i else begin..], sep), stop) == goal
      invariant begin != -1 ==> NoSep(source[begin..i], sep)
    {
      if sep(source[i]) {
        if begin > -1 {
          var piece := source[begin..i];
          SplitCloseRun(source, begin, i, sep, stop, handed, goal);
          handed := handed + [piece];
          if stop(piece) {
            return;
          }
          begin := -1;
        } else {
          RunsSkipSeparator(source, i, sep);
        }
      } else {
        if begin == -1 {
          begin := i;
          assert source[begin..i] == [];
        }
        NoSepExtend(source, begin, i, sep);
      }
      i := i + 1;
    }
    if begin > -1 && begin < |source| {
      assert source[begin..i] == source[begin..];
      RunsLastRun(source, begin, sep);
      TakeUntilSingle(source[begin..], stop);
      handed := handed + [source[begin..]];
    } else {
      assert source[i..] == [];
      assert handed + [] == handed;
    }
  }

  /** The pieces of `s` between occurrences of the non-empty `sep`, leftmost match first. */
  function SplitOn(s: Bytes, sep: Bytes): (r: seq<Bytes>)
    requires |sep| > 0
    ensures r != []
    decreases |s|
  {
    var id := FirstMatch(s, sep);
    if id == -1 then [s] else [s[..id]] + SplitOn(s[id + |sep|..], sep)
  }

  lemma SplitOnFound(s: Bytes, sep: Bytes)
    requires |sep| > 0 && FirstMatch(s, sep) != -1
    ensures SplitOn(s, sep) == [s[..FirstMatch(s, sep)]] + SplitOn(s[FirstMatch(s, sep) + |sep|..], sep)
  {
  }

  /** StrSplitS's loop step: handing over the piece before the first match keeps the goal in reach. */
  lemma SplitSAdvance(handed: seq<Bytes>, rest: Bytes, sep: Bytes, stop: Bytes -> bool, goal: seq<Bytes>)
    requires |sep| > 0 && FirstMatch(rest, sep) != -1
    requires handed + TakeUntil(SplitOn(rest, sep), stop) == goal
    ensures 0 <= FirstMatch(rest, sep) && FirstMatch(rest, sep) + |sep| <= |rest|
    ensures stop(rest[0..FirstMatch(rest, sep)]) ==> handed + [rest[0..FirstMatch(rest, sep)]] == goal
    ensures !stop(rest[0..FirstMatch(rest, sep)]) ==>
      (handed + [rest[0..FirstMatch(rest, sep)]]) + TakeUntil(SplitOn(rest[FirstMatch(rest, sep) + |sep|..], sep), stop) == goal
  {
    var id := FirstMatch(rest, sep);
    var piece := rest[0..id];
    var pieces := SplitOn(rest, sep);
    SplitOnFound(rest, sep);
    assert piece == rest[..id];
    assert pieces[0] == piece && pieces[1..] == SplitOn(rest[id + |sep|..], sep);
    if stop(piece) {
      TakeUntilStops(pieces, stop);
    } else {
      TakeUntilStep(pieces, stop);
      var tail := TakeUntil(pieces[1..], stop);
      assert handed + ([piece] + tail) == (handed + [piece]) + tail;
    }
  }

  lemma SplitOnNotFound(s: Bytes, sep: Bytes)
    requires |sep| > 0 && FirstMatch(s, sep) == -1
    ensures SplitOn(s, sep) == [s]
  {
  }

  /** The bytes before the first occurrence of `sep` hold no occurrence of it. */
  lemma PrefixBeforeFirstMatch(s: Bytes, sep: Bytes)
    requires |sep| > 0 && FirstMatch(s, sep) != -1
    ensures forall o :: !OccursAt(s[..FirstMatch(s, sep)], sep, o)
  {
    var id := FirstMatch(s, sep);
    forall o | OccursAt(s[..id], sep, o)
      ensures false
    {
      assert s[..id][o..o + |sep|] == s[o..o + |sep|];
      assert OccursAt(s, sep, o);
    }
  }

  /** The pieces joined back with `sep` in between. */
  function Join(pieces: seq<Bytes>, sep: Bytes): Bytes
    requires pieces != []
  {
    if |pieces| == 1 then pieces[0] else pieces[0] + sep + Join(pieces[1..], sep)
  }

  /** Splitting and re-joining gives back the original string. */
  lemma {:induction false} JoinSplitOn(s: Bytes, sep: Bytes)
    requires |sep| > 0
    ensures Join(SplitOn(s, sep), sep) == s
    decreases |s|
  {
    var id := FirstMatch(s, sep);
    if id == -1 {
      SplitOnNotFound(s, sep);
    } else {
      var rest := s[id + |sep|..];
      var pieces := SplitOn(s, sep);
      SplitOnFound(s, sep);
      assert |pieces| >= 2 && pieces[0] == s[..id] && pieces[1..] == SplitOn(rest, sep);
      JoinSplitOn(rest, sep);
      assert Join(pieces, sep) == s[..id] + sep + rest;
      assert s[id..id + |sep|] == sep;
      assert s == s[..id] + s[id..id + |sep|] + rest;
    }
  }

  /** No piece but the last contains an occurrence of `sep`. */
  lemma {:induction false} SplitOnPiecesAvoidSep(s: Bytes, sep: Bytes)
    requires |sep| > 0
    ensures forall i, o :: 0 <= i < |SplitOn(s, sep)| - 1 ==> !OccursAt(SplitOn(s, sep)[i], sep, o)
    decreases |s|
  {
    var id := FirstMatch(s, sep);
    if id != -1 {
      SplitOnPiecesAvoidSep(s[id + |sep|..], sep);
      PrefixBeforeFirstMatch(s, sep);
    }
  }

  /**
   * The pieces StrSplitS hands to `handler`: nothing for an empty source, the
   * whole source for an empty separator, otherwise the separator-delimited
   * pieces until the handler returns true on one.
   */
  method StrSplitS(source: Bytes, sep: Bytes, handler: Option<Bytes -> bool>) returns (handed: seq<Bytes>)
    ensures handler.None? || source == [] ==> handed == []
    ensures handler.Some? && source != [] && sep == [] ==> handed == [source]
    ensures handler.Some? && source != [] && sep != [] ==> handed == TakeUntil(SplitOn(source, sep), handler.value)
  {
    handed := [];
    if handler.None? || |source| == 0 {
      return;
    }
    var stop := handler.value;
    if |sep| == 0 {
      handed := [source];
      return;
    }
    ghost var goal := TakeUntil(SplitOn(source, sep), stop);
    var rest := source;
    while true
      invariant handed + TakeUntil(SplitOn(rest, sep), stop) == goal
      decreases |rest|
    {
      var id := StrStr(rest, sep);
      if id != -1 {
        var piece := rest[0..id];
        SplitSAdvance(handed, rest, sep, stop, goal);
        handed := handed + [piece];
        if stop(piece) {
          break;
        }
        rest := rest[id + |sep|..];
      } else {
        SplitOnNotFound(rest, sep);
        TakeUntilSingle(rest, stop);
        handed := handed + [rest];
        assert handed == goal;
        break;
      }
    }
  }

  /** Splits at the first separator byte: name before it, value after it. */
  method StrPaire(source: Bytes, issep: bv8 -> bool) returns (r: seq<Bytes>)
    ensures source == [] ==> r == []
    ensures source != [] && NoSep(source, issep) ==> r == [source]
    ensures !NoSep(source, issep) ==>
      |r| == 2 && NoSep(r[0], issep) && |r[0]| < |source| && issep(source[|r[0]|]) &&
      source == r[0] + [source[|r[0]|]] + r[1]
  {
    if |source| == 0 {
      return [];
    }
    var i := 0;
    while i < |source|
      invariant 0 <= i <= |source|
      invariant NoSep(source[..i], issep)
    {
      if issep(source[i]) {
        assert source == source[0..i] + [source[i]] + source[i + 1..];
        return [source[0..i], source[i + 1..]];
      }
      assert source[..i + 1] == source[..i] + [source[i]];
      i := i + 1;
    }
    assert source[..i] == source;
    return [source];
  }

  /**
   * The (name, value) pair StrPaireS hands to its handler, split at the first
   * occurrence of `sep`; None when the handler is nil or the source empty.
   */
  function StrPaireS(source: Bytes, sep: Bytes, handler: Option<(Bytes, Bytes) -> ()>): (r: Option<(Bytes, Bytes)>)
    ensures handler.None? || source == [] <==> r.None?
    ensures r.Some? && sep == [] ==> r.value == (source, [])
    ensures r.Some? && sep != [] && FirstMatch(source, sep) == -1 ==> r.value == (source, [])
    ensures r.Some? && sep != [] && FirstMatch(source, sep) != -1 ==>
      && |r.value.0| == FirstMatch(source, sep)
      && source == r.value.0 + sep + r.value.1 && forall o :: !OccursAt(r.value.0, sep, o)
  {
    if handler.None? || |source| == 0 then None
    else if |sep| == 0 then Some((source, []))
    else
      var id := FirstMatch(source, sep);
      if id != -1 then
        var name := source[0..id];
        PrefixBeforeFirstMatch(source, sep);
        assert name == source[..id];
        assert source == name + source[id..id + |sep|] + source[id + |sep|..];
        Some((name, source[id + |sep|..]))
      else Some((source, []))
  }

  // ---------------------------------------------------------------------------
  // Trimming
  // ---------------------------------------------------------------------------

  /** `r` is the slice of `source` at `b`, and only separators lie outside it. */
  predicate TrimmedAt(source: Bytes, r: Bytes, b: int, issep: bv8 -> bool)
  {
    0 <= b && b + |r| <= |source| && r == source[b..b + |r|] &&
    (forall k :: 0 <= k < b ==> issep(source[k])) &&
    (forall k :: b + |r| <= k < |source| ==> issep(source[k]))
  }

  /** Drops leading and trailing separator bytes: what is left is a contiguous slice
      that neither starts nor ends with a separator. */
  method StrTrim(source: Bytes, issep: bv8 -> bool) returns (r: Bytes)
    ensures exists b :: TrimmedAt(source, r, b, issep)
    ensures r != [] ==> !issep(r[0]) && !issep(r[|r| - 1])
  {
    var begin := 0;
    while begin < |source| && issep(source[begin])
      invariant 0 <= begin <= |source|
      invariant forall k :: 0 <= k < begin ==> issep(source[k])
    {
      begin := begin + 1;
    }
    var rest := source[begin..];
    var end := |rest|;
    while end > 0 && issep(rest[end - 1])
      invariant 0 <= end <= |rest|
      invariant forall k :: end <= k < |rest| ==> issep(rest[k])
    {
      end := end - 1;
    }
    r := rest[0..end];
    assert r == source[begin..begin + |r|];
    assert forall k :: begin + |r| <= k < |source| ==> source[k] == rest[k - begin];
    assert TrimmedAt(source, r, begin, issep);
    if r != [] && begin < |source| {
      assert r[0] == source[begin];
    }
  }
}
