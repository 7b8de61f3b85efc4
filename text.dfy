/**
 * The Python `str` operations the scripts use, on `string` (a sequence of characters):
 * `strip`, `startswith`/`endswith`, `lower`, `in`, `split`, `join`, `replace`,
 * `splitlines`, `readlines` and `str(int)`.
 */
module Text {
  import opened Wrappers

  // ---------------------------------------------------------------------------
  // Whitespace and strip

  /** The characters for which Python's `str.isspace()` holds; `str.strip()` removes exactly these. */
  predicate IsSpace(c: char) {
    var n := c as int;
    (0x09 <= n <= 0x0D) || (0x1C <= n <= 0x20) || n == 0x85 || n == 0xA0 || n == 0x1680
    || (0x2000 <= n <= 0x200A) || n == 0x2028 || n == 0x2029 || n == 0x202F || n == 0x205F || n == 0x3000
  }

  predicate AllSpace(s: string) {
    forall k :: 0 <= k < |s| ==> IsSpace(s[k])
  }

  /** Removes the leading characters for which `drop` holds. */
  function LStripBy(s: string, drop: char -> bool): (r: string)
    ensures |r| <= |s| && r == s[|s| - |r|..]
    ensures forall k :: 0 <= k < |s| - |r| ==> drop(s[k])
    ensures r == "" || !drop(r[0])
    decreases |s|
  {
    if s != "" && drop(s[0]) then LStripBy(s[1..], drop) else s
  }

  /** Removes the trailing characters for which `drop` holds. */
  function RStripBy(s: string, drop: char -> bool): (r: string)
    ensures |r| <= |s| && r == s[..|r|]
    ensures forall k :: |r| <= k < |s| ==> drop(s[k])
    ensures r == "" || !drop(r[|r| - 1])
    decreases |s|
  {
    if s != "" && drop(s[|s| - 1]) then RStripBy(s[..|s| - 1], drop) else s
  }

  /** How many characters `StripBy` removes at the front of `s`. */
  function StripStart(s: string, drop: char -> bool): nat {
    var t := RStripBy(s, drop);
    |t| - |LStripBy(t, drop)|
  }

  /**
   * Python's `s.strip(chars)`: `s` is the result with a run of dropped characters before
   * it and a run after it, and the result neither begins nor ends with a dropped character.
   */
  function StripBy(s: string, drop: char -> bool): (r: string)
    ensures |r| <= |s|
    ensures r == "" || (!drop(r[0]) && !drop(r[|r| - 1]))
    ensures var i := StripStart(s, drop);
            i + |r| <= |s| && r == s[i..i + |r|]
            && (forall k :: 0 <= k < i ==> drop(s[k]))
            && (forall k :: i + |r| <= k < |s| ==> drop(s[k]))
  {
    var t := RStripBy(s, drop);
    var r := LStripBy(t, drop);
    assert r == s[|t| - |r|..|t|];
    r
  }

  /** Python's `s.strip()`. */
  function Strip(s: string): (r: string)
    ensures |r| <= |s|
    ensures r == "" || (!IsSpace(r[0]) && !IsSpace(r[|r| - 1]))
  {
    StripBy(s, IsSpace)
  }

  /** Python's `s.strip(c)` for one character `c`. */
  function StripChar(s: string, c: char): (r: string)
    ensures |r| <= |s|
    ensures r == "" || (r[0] != c && r[|r| - 1] != c)
  {
    StripBy(s, CharIs(c))
  }

  /** The test "is the character `c`". */
  function CharIs(c: char): char -> bool {
    x => x == c
  }

  /** `s.strip()` is falsy exactly when `s` consists of whitespace only. */
  lemma StripEmptyIff(s: string)
    ensures Strip(s) == "" <==> AllSpace(s)
  {
    var r := Strip(s);
    var i := StripStart(s, IsSpace);
    if r != "" {
      assert s[i] == r[0];
    }
  }

  /** A string without surrounding dropped characters is left as it is. */
  lemma StripByNoop(s: string, drop: char -> bool)
    requires s == "" || (!drop(s[0]) && !drop(s[|s| - 1]))
    ensures StripBy(s, drop) == s
  {
  }

  /** Stripping keeps a part of the string: a character absent before is absent after. */
  lemma StripByKeepsAbsent(s: string, drop: char -> bool, c: char)
    requires c !in s
    ensures c !in StripBy(s, drop)
  {
    var r := StripBy(s, drop);
    var i := StripStart(s, drop);
    AbsentFromSlice(s, i, i + |r|, c);
  }

  /** `StripChar` only removes `c`: any other character present before is present after. */
  lemma StripCharKeeps(s: string, c: char, d: char)
    requires d in s && d != c
    ensures d in StripChar(s, c)
  {
    RStripKeeps(s, CharIs(c), d);
    LStripKeeps(RStripBy(s, CharIs(c)), CharIs(c), d);
  }

  lemma {:induction false} LStripKeeps(s: string, drop: char -> bool, d: char)
    requires d in s && !drop(d)
    ensures d in LStripBy(s, drop)
    decreases |s|
  {
    if drop(s[0]) {
      assert s == [s[0]] + s[1..];
      LStripKeeps(s[1..], drop, d);
    }
  }

  lemma {:induction false} RStripKeeps(s: string, drop: char -> bool, d: char)
    requires d in s && !drop(d)
    ensures d in RStripBy(s, drop)
    decreases |s|
  {
    if drop(s[|s| - 1]) {
      assert s == s[..|s| - 1] + [s[|s| - 1]];
      RStripKeeps(s[..|s| - 1], drop, d);
    }
  }

  /** Leading whitespace does not change the result of `strip()`. */
  lemma {:induction false} StripLeadingSpace(c: char, s: string)
    requires IsSpace(c)
    ensures Strip([c] + s) == Strip(s)
    decreases |s|
  {
    var t := [c] + s;
    if s == "" {
      assert RStripBy(t, IsSpace) == RStripBy(t[..0], IsSpace);
    } else if IsSpace(s[|s| - 1]) {
      RStripLeadingStep(c, s);
      StripLeadingSpace(c, s[..|s| - 1]);
    } else {
      assert RStripBy(t, IsSpace) == t;
      assert RStripBy(s, IsSpace) == s;
      assert LStripBy(t, IsSpace) == LStripBy(t[1..], IsSpace);
      assert t[1..] == s;
    }
  }

  /** A trailing space goes first, whether or not a leading character is in front. */
  lemma RStripLeadingStep(c: char, s: string)
    requires s != "" && IsSpace(s[|s| - 1])
    ensures RStripBy([c] + s, IsSpace) == RStripBy([c] + s[..|s| - 1], IsSpace)
    ensures RStripBy(s, IsSpace) == RStripBy(s[..|s| - 1], IsSpace)
  {
    var t := [c] + s;
    assert t[|t| - 1] == s[|s| - 1];
    RStripStep(t, IsSpace);
    assert t[..|t| - 1] == [c] + s[..|s| - 1];
    RStripStep(s, IsSpace);
  }

  /** One dropped character at the end goes. */
  lemma RStripStep(s: string, drop: char -> bool)
    requires s != "" && drop(s[|s| - 1])
    ensures RStripBy(s, drop) == RStripBy(s[..|s| - 1], drop)
  {
  }

  // ---------------------------------------------------------------------------
  // Prefixes, case and occurrences

  /** Python's `s.startswith(p)`. */
  predicate StartsWith(s: string, p: string) {
    |p| <= |s| && s[..|p|] == p
  }

  /** Python's `s.endswith(p)`. */
  predicate EndsWith(s: string, p: string) {
    |p| <= |s| && s[|s| - |p|..] == p
  }

  /** Lower-casing of one character (the ASCII letters; every other character is its own lower case). */
  function LowerChar(c: char): (d: char)
    ensures 'A' <= c <= 'Z' ==> 'a' <= d <= 'z'
    ensures !('A' <= c <= 'Z') ==> d == c
  {
    if 'A' <= c <= 'Z' then (c as int + 32) as char else c
  }

  /** Python's `s.lower()`, character by character. */
  function Lower(s: string): (r: string)
    ensures |r| == |s|
    ensures forall k :: 0 <= k < |s| ==> r[k] == LowerChar(s[k])
  {
    seq(|s|, k requires 0 <= k < |s| => LowerChar(s[k]))
  }

  /** `pat` occurs in `s` at index `i`. */
  predicate OccursAt(s: string, pat: string, i: int) {
    0 <= i && i + |pat| <= |s| && s[i..i + |pat|] == pat
  }

  lemma OccursAtTail(s: string, pat: string, j: int)
    requires s != "" && 0 <= j
    ensures OccursAt(s, pat, j + 1) <==> OccursAt(s[1..], pat, j)
  {
    if j + 1 + |pat| <= |s| {
      assert s[j + 1..j + 1 + |pat|] == s[1..][j..j + |pat|];
    }
  }

  /** The leftmost occurrence of `pat` in `s` (Python's `s.find(pat)`, with `None` for -1). */
  function Find(s: string, pat: string): (r: Option<nat>)
    ensures r.Some? ==> OccursAt(s, pat, r.value) && forall j :: 0 <= j < r.value ==> !OccursAt(s, pat, j)
    ensures r.None? ==> forall j :: !OccursAt(s, pat, j)
    decreases |s|
  {
    if |s| < |pat| then None
    else if s[..|pat|] == pat then Some(0)
    else
      match Find(s[1..], pat)
      case None =>
        assert forall j :: !OccursAt(s, pat, j) by {
          forall j ensures !OccursAt(s, pat, j) {
            if j >= 1 { OccursAtTail(s, pat, j - 1); }
          }
        }
        None
      case Some(j) =>
        assert OccursAt(s, pat, j + 1) && forall i :: 0 <= i < j + 1 ==> !OccursAt(s, pat, i) by {
          OccursAtTail(s, pat, j);
          forall i | 0 <= i < j + 1 ensures !OccursAt(s, pat, i) {
            if i >= 1 { OccursAtTail(s, pat, i - 1); }
          }
        }
        Some(j + 1)
  }

  /** Python's `pat in s` for strings. */
  predicate Contains(s: string, pat: string) {
    Find(s, pat).Some?
  }

  lemma ContainsIff(s: string, pat: string)
    ensures Contains(s, pat) <==> exists i :: OccursAt(s, pat, i)
  {
  }

  /** For a one-character pattern, substring search is character membership. */
  lemma ContainsCharIff(s: string, c: char)
    ensures Contains(s, [c]) <==> c in s
  {
    if c in s {
      var k :| 0 <= k < |s| && s[k] == c;
      assert OccursAt(s, [c], k);
    }
    if Contains(s, [c]) {
      var i := Find(s, [c]).value;
      assert s[i..i + 1] == [c];
      assert s[i] == c;
    }
  }

  /** Case-insensitive substring search (a regular expression compiled with `re.IGNORECASE` that is one literal). */
  predicate ContainsIgnoreCase(s: string, pat: string) {
    Contains(Lower(s), Lower(pat))
  }

  // ---------------------------------------------------------------------------
  // Join, split and replace

  /** Python's `sep.join(parts)`. */
  function Join(parts: seq<string>, sep: string): string
    decreases |parts|
  {
    if |parts| == 0 then ""
    else if |parts| == 1 then parts[0]
    else parts[0] + sep + Join(parts[1..], sep)
  }

  /** The sum of the lengths of the parts. */
  function TotalLength(parts: seq<string>): nat
    decreases |parts|
  {
    if parts == [] then 0 else |parts[0]| + TotalLength(parts[1..])
  }

  lemma {:induction false} TotalLengthAppend(a: seq<string>, b: seq<string>)
    ensures TotalLength(a + b) == TotalLength(a) + TotalLength(b)
    decreases |a|
  {
    if a == [] {
      assert a + b == b;
    } else {
      assert (a + b)[1..] == a[1..] + b;
      TotalLengthAppend(a[1..], b);
    }
  }

  /** The joined string is as long as the parts together plus one separator between each two parts. */
  lemma {:induction false} JoinLength(parts: seq<string>, sep: string)
    requires |parts| >= 1
    ensures |Join(parts, sep)| == TotalLength(parts) + (|parts| - 1) * |sep|
    decreases |parts|
  {
    if |parts| > 1 {
      JoinLength(parts[1..], sep);
      assert (|parts| - 1) * |sep| == (|parts| - 2) * |sep| + |sep|;
    }
  }

  /** Joining one more part appends the separator and that part. */
  lemma {:induction false} JoinSnoc(parts: seq<string>, x: string, sep: string)
    requires |parts| >= 1
    ensures Join(parts + [x], sep) == Join(parts, sep) + sep + x
    decreases |parts|
  {
    if |parts| == 1 {
      assert parts + [x] == [parts[0], x];
      assert [parts[0], x][1..] == [x];
    } else {
      assert (parts + [x])[1..] == parts[1..] + [x];
      JoinSnoc(parts[1..], x, sep);
    }
  }

  /** A character in neither the separator nor any part is not in the joined string. */
  lemma {:induction false} JoinAbsent(parts: seq<string>, sep: string, c: char)
    requires c !in sep
    requires forall k :: 0 <= k < |parts| ==> c !in parts[k]
    ensures c !in Join(parts, sep)
    decreases |parts|
  {
    if |parts| > 1 {
      JoinAbsent(parts[1..], sep, c);
    }
  }

  /** An occurrence of `pat` that lies inside the prefix `s[..n]` is an occurrence in `s`. */
  lemma OccursInPrefix(s: string, pat: string, n: nat, j: int)
    requires n <= |s| && OccursAt(s[..n], pat, j)
    ensures OccursAt(s, pat, j)
  {
    assert s[..n][j..j + |pat|] == s[j..j + |pat|];
  }

  /**
   * Python's `s.split(pat)`: the pieces between the leftmost non-overlapping occurrences of
   * `pat`. Joining the pieces with `pat` gives `s` back, and no piece contains `pat`.
   */
  function SplitOn(s: string, pat: string): (parts: seq<string>)
    requires pat != ""
    ensures |parts| >= 1
    decreases |s|
  {
    match Find(s, pat)
    case None => [s]
    case Some(i) => [s[..i]] + SplitOn(s[i + |pat|..], pat)
  }

  /** Joining the pieces of a split with the separator gives the text back. */
  lemma {:induction false} SplitOnJoin(s: string, pat: string)
    requires pat != ""
    ensures Join(SplitOn(s, pat), pat) == s
    decreases |s|
  {
    match Find(s, pat)
    case None =>
    case Some(i) =>
      var rest := SplitOn(s[i + |pat|..], pat);
      SplitOnJoin(s[i + |pat|..], pat);
      assert SplitOn(s, pat) == [s[..i]] + rest;
      assert s == s[..i] + pat + s[i + |pat|..];
  }

  /** No piece of a split contains the pattern. */
  lemma {:induction false} SplitOnPieceFree(s: string, pat: string, k: nat)
    requires pat != "" && k < |SplitOn(s, pat)|
    ensures !Contains(SplitOn(s, pat)[k], pat)
    decreases |s|
  {
    match Find(s, pat)
    case None =>
    case Some(i) =>
      var rest := SplitOn(s[i + |pat|..], pat);
      assert SplitOn(s, pat) == [s[..i]] + rest;
      if k == 0 {
        FindPrefixFree(s, pat);
      } else {
        SplitOnPieceFree(s[i + |pat|..], pat, k - 1);
      }
  }

  lemma SplitOnPiecesFree(s: string, pat: string)
    requires pat != ""
    ensures var parts := SplitOn(s, pat); forall k :: 0 <= k < |parts| ==> !Contains(parts[k], pat)
  {
    forall k | 0 <= k < |SplitOn(s, pat)| ensures !Contains(SplitOn(s, pat)[k], pat) {
      SplitOnPieceFree(s, pat, k);
    }
  }

  /** A string without `pat` is one piece. */
  lemma SplitOnAbsent(s: string, pat: string)
    requires pat != "" && !Contains(s, pat)
    ensures SplitOn(s, pat) == [s]
  {
  }

  /** A leading occurrence of `pat` gives an empty first piece. */
  lemma SplitOnLeading(s: string, pat: string)
    requires pat != ""
    ensures SplitOn(pat + s, pat) == [""] + SplitOn(s, pat)
  {
    var t := pat + s;
    assert OccursAt(t, pat, 0);
    assert t[|pat|..] == s;
  }

  /** The prefix before the leftmost occurrence holds no occurrence. */
  lemma FindPrefixFree(s: string, pat: string)
    requires pat != "" && Find(s, pat).Some?
    ensures !Contains(s[..Find(s, pat).value], pat)
  {
    var i := Find(s, pat).value;
    forall j | OccursAt(s[..i], pat, j) ensures false {
      OccursInPrefix(s, pat, i, j);
    }
  }

  /** The pieces after the first one are the pieces of what follows the first occurrence. */
  lemma SplitOnUnfold(s: string, pat: string)
    requires pat != "" && Find(s, pat).Some?
    ensures var i := Find(s, pat).value;
            SplitOn(s, pat) == [s[..i]] + SplitOn(s[i + |pat|..], pat)
  {
  }

  /** The last piece of a split: the text after the last occurrence of `pat`, the whole text without one. */
  function LastPiece(s: string, pat: string): string
    requires pat != ""
    decreases |s|
  {
    match Find(s, pat)
    case None => s
    case Some(i) => LastPiece(s[i + |pat|..], pat)
  }

  /** `LastPiece` is the last element of the split. */
  lemma {:induction false} LastPieceOfSplit(s: string, pat: string)
    requires pat != ""
    ensures var p := SplitOn(s, pat); p[|p| - 1] == LastPiece(s, pat)
    decreases |s|
  {
    match Find(s, pat)
    case None =>
    case Some(i) =>
      var rest := SplitOn(s[i + |pat|..], pat);
      LastPieceOfSplit(s[i + |pat|..], pat);
      assert SplitOn(s, pat) == [s[..i]] + rest;
  }

  /** With a one-character separator, the last piece is what follows the last separator. */
  lemma {:induction false} SplitOnLast(b: string, c: char, e: string)
    requires c !in e
    ensures LastPiece(b + [c] + e, [c]) == e
    decreases |b|
  {
    var s := b + [c] + e;
    assert OccursAt(s, [c], |b|);
    var i := Find(s, [c]).value;
    if i == |b| {
      assert s[i + 1..] == e;
      ContainsCharIff(e, c);
    } else {
      SplitOnLastStep(b, c, e, i);
      SplitOnLast(b[i + 1..], c, e);
    }
  }

  /** An earlier separator inside `b`: what follows it is the rest of `b`, the separator and `e`. */
  lemma SplitOnLastStep(b: string, c: char, e: string, i: nat)
    requires Find(b + [c] + e, [c]) == Some(i) && i != |b|
    ensures i < |b| && (b + [c] + e)[i + 1..] == b[i + 1..] + [c] + e
  {
    var s := b + [c] + e;
    assert OccursAt(s, [c], |b|);
  }

  /** Number of occurrences of the character `c` in `s`. */
  function CountChar(s: string, c: char): nat
    decreases |s|
  {
    if s == "" then 0 else (if s[0] == c then 1 else 0) + CountChar(s[1..], c)
  }

  lemma {:induction false} CountCharAppend(a: string, b: string, c: char)
    ensures CountChar(a + b, c) == CountChar(a, c) + CountChar(b, c)
    decreases |a|
  {
    if a == "" {
      assert a + b == b;
    } else {
      assert (a + b)[1..] == a[1..] + b;
      CountCharAppend(a[1..], b, c);
    }
  }

  lemma {:induction false} CountCharAbsent(s: string, c: char)
    requires c !in s
    ensures CountChar(s, c) == 0
    decreases |s|
  {
    if s != "" {
      CountCharAbsent(s[1..], c);
    }
  }

  /** Splitting at a character gives one more piece than there are occurrences of that character. */
  lemma {:induction false} SplitCharCount(s: string, c: char)
    ensures |SplitOn(s, [c])| == CountChar(s, c) + 1
    decreases |s|
  {
    match Find(s, [c])
    case None =>
      ContainsCharIff(s, c);
      CountCharAbsent(s, c);
    case Some(i) =>
      var rest := s[i + 1..];
      assert s[i..i + 1] == [c];
      assert s == s[..i] + ([c] + rest);
      FindPrefixFree(s, [c]);
      ContainsCharIff(s[..i], c);
      CountCharAbsent(s[..i], c);
      CountCharAppend(s[..i], [c] + rest, c);
      CountCharAppend([c], rest, c);
      assert CountChar([c], c) == 1;
      SplitOnUnfold(s, [c]);
      assert SplitOn(s, [c]) == [s[..i]] + SplitOn(rest, [c]);
      SplitCharCount(rest, c);
  }

  /**
   * Python's `s.replace(pat, rep)`, which is `rep.join(s.split(pat))`: every leftmost
   * non-overlapping occurrence of `pat` becomes `rep`.
   */
  function ReplaceAll(s: string, pat: string, rep: string): (r: string)
    requires pat != ""
    ensures !Contains(s, pat) ==> r == s
  {
    Join(SplitOn(s, pat), rep)
  }

  /** Removing a character (`s.replace(c, "")`) leaves no occurrence of it. */
  lemma RemoveCharAbsent(s: string, c: char)
    ensures c !in ReplaceAll(s, [c], "")
  {
    var parts := SplitOn(s, [c]);
    SplitOnPiecesFree(s, [c]);
    forall k | 0 <= k < |parts| ensures c !in parts[k] {
      SplitOnPieceFree(s, [c], k);
      ContainsCharIff(parts[k], c);
    }
    JoinAbsent(parts, "", c);
  }

  /** Replacing keeps a character that is in neither the pattern nor the replacement out of the result. */
  lemma ReplaceAllKeepsAbsent(s: string, pat: string, rep: string, c: char)
    requires pat != "" && c !in s && c !in rep
    ensures c !in ReplaceAll(s, pat, rep)
  {
    var parts := SplitOn(s, pat);
    forall k | 0 <= k < |parts| ensures c !in parts[k] {
      PartsOfSplitAbsent(s, pat, c, k);
    }
    JoinAbsent(parts, rep, c);
  }

  /** Each piece of a split is a part of the string, so it lacks the characters the string lacks. */
  lemma {:induction false} PartsOfSplitAbsent(s: string, pat: string, c: char, k: nat)
    requires pat != "" && c !in s && k < |SplitOn(s, pat)|
    ensures c !in SplitOn(s, pat)[k]
    decreases |s|
  {
    match Find(s, pat)
    case None =>
    case Some(i) =>
      var rest := s[i + |pat|..];
      assert SplitOn(s, pat) == [s[..i]] + SplitOn(rest, pat);
      if k > 0 {
        AbsentFromSlice(s, i + |pat|, |s|, c);
        assert s[i + |pat|..|s|] == rest;
        PartsOfSplitAbsent(rest, pat, c, k - 1);
      } else {
        AbsentFromSlice(s, 0, i, c);
        assert s[0..i] == s[..i];
      }
  }

  /** A slice lacks the characters the string lacks. */
  lemma AbsentFromSlice(s: string, i: nat, j: nat, c: char)
    requires i <= j <= |s| && c !in s
    ensures c !in s[i..j]
  {
    forall k | 0 <= k < j - i ensures s[i..j][k] != c {
      assert s[i..j][k] == s[i + k];
    }
  }

  /** A leading occurrence becomes a leading replacement. */
  lemma ReplaceAllLeading(s: string, pat: string, rep: string)
    requires pat != ""
    ensures ReplaceAll(pat + s, pat, rep) == rep + ReplaceAll(s, pat, rep)
  {
    SplitOnLeading(s, pat);
    var rest := SplitOn(s, pat);
    assert ([""] + rest)[1..] == rest;
  }

  /** A string that holds a pattern holds the pattern's first character. */
  lemma ContainsHead(s: string, pat: string)
    requires pat != ""
    ensures Contains(s, pat) ==> pat[0] in s
  {
    if Contains(s, pat) {
      var i := Find(s, pat).value;
      assert s[i..i + |pat|][0] == pat[0];
    }
  }

  /** A character other than the one-character pattern joins the first piece of the split. */
  lemma SplitOnConsOther(c: char, y: string, d: char)
    requires c != d
    ensures var p := SplitOn(y, [d]); SplitOn([c] + y, [d]) == [[c] + p[0]] + p[1..]
  {
    var s := [c] + y;
    match Find(y, [d])
    case None =>
      ContainsCharIff(y, d);
      assert d !in s;
      ContainsCharIff(s, d);
      SplitOnAbsent(y, [d]);
      SplitOnAbsent(s, [d]);
    case Some(i) =>
      assert OccursAt(s, [d], i + 1) by {
        OccursAtTail(s, [d], i);
        assert s[1..] == y;
      }
      forall j | 0 <= j < i + 1 ensures !OccursAt(s, [d], j) {
        if j > 0 {
          OccursAtTail(s, [d], j - 1);
          assert s[1..] == y;
        }
      }
      assert Find(s, [d]) == Some(i + 1);
      SplitOnUnfold(s, [d]);
      SplitOnUnfold(y, [d]);
      assert s[..i + 1] == [c] + y[..i];
      assert s[i + 2..] == y[i + 1..];
  }

  /** Replacing a one-character pattern keeps a different leading character in front. */
  lemma ReplaceCharConsOther(c: char, y: string, d: char, rep: string)
    requires c != d
    ensures ReplaceAll([c] + y, [d], rep) == [c] + ReplaceAll(y, [d], rep)
  {
    SplitOnConsOther(c, y, d);
    var p := SplitOn(y, [d]);
    var t := p[1..];
    assert p == [p[0]] + t;
    assert ReplaceAll([c] + y, [d], rep) == Join([[c] + p[0]] + t, rep);
    assert ReplaceAll(y, [d], rep) == Join([p[0]] + t, rep);
    JoinCons([c] + p[0], t, rep);
    JoinCons(p[0], t, rep);
    if t != [] {
      var j := Join(t, rep);
      assert [c] + p[0] + rep + j == [c] + (p[0] + rep + j);
    }
  }

  /** Joining a list given by its head and tail. */
  lemma JoinCons(x: string, t: seq<string>, sep: string)
    ensures Join([x] + t, sep) == if t == [] then x else x + sep + Join(t, sep)
  {
    assert ([x] + t)[1..] == t;
  }

  // ---------------------------------------------------------------------------
  // Lines

  /** The pieces of a split at '\n' hold no '\n'. */
  lemma SplitNewlinePieceFree(t: string, k: nat)
    requires k < |SplitOn(t, "\n")|
    ensures '\n' !in SplitOn(t, "\n")[k]
  {
    SplitOnPieceFree(t, "\n", k);
    assert "\n" == ['\n'];
    ContainsCharIff(SplitOn(t, "\n")[k], '\n');
  }

  /** A join at '\n' whose last part is empty is empty or ends with '\n'. */
  lemma JoinNewlineLastEmpty(p: seq<string>)
    requires |p| >= 1
    ensures var t := Join(p, "\n"); p[|p| - 1] == "" ==> (t == "" || t[|t| - 1] == '\n')
  {
    var init := p[..|p| - 1];
    assert init + [p[|p| - 1]] == p;
    if |p| >= 2 {
      JoinSnoc(init, p[|p| - 1], "\n");
    }
  }

  /** The last piece of a split at '\n' is empty exactly when the text is empty or ends with '\n'. */
  lemma SplitNewlineLast(t: string)
    ensures var p := SplitOn(t, "\n"); p[|p| - 1] == "" <==> (t == "" || t[|t| - 1] == '\n')
  {
    var p := SplitOn(t, "\n");
    var last := |p| - 1;
    if t == "" {
      SplitOnAbsent(t, "\n");
    } else if t[|t| - 1] == '\n' {
      SplitNewlineLastEnds(t);
    } else {
      SplitOnJoin(t, "\n");
      JoinNewlineLastEmpty(p);
    }
  }

  lemma SplitNewlineLastEnds(t: string)
    requires t != "" && t[|t| - 1] == '\n'
    ensures var p := SplitOn(t, "\n"); p[|p| - 1] == ""
  {
    var b := t[..|t| - 1];
    assert t == b + ['\n'] + "";
    assert "\n" == ['\n'];
    SplitOnLast(b, '\n', "");
    LastPieceOfSplit(t, "\n");
  }

  /**
   * Python's `t.splitlines()` for text whose only line boundary is '\n': the pieces between
   * newlines, without the empty piece after a final newline.
   */
  function SplitLines(t: string): (lines: seq<string>)
    ensures forall k :: 0 <= k < |lines| ==> '\n' !in lines[k]
    ensures t == "" <==> lines == []
    ensures (t == "" || t[|t| - 1] != '\n') ==> Join(lines, "\n") == t
    ensures (t != "" && t[|t| - 1] == '\n') ==> Join(lines, "\n") + "\n" == t
  {
    SplitLinesFree(t);
    SplitLinesJoin(t);
    DropEmptyLast(SplitOn(t, "\n"))
  }

  /** The pieces of a split without the last one when that one is empty. */
  function DropEmptyLast(p: seq<string>): (r: seq<string>)
    requires |p| >= 1
    ensures p[|p| - 1] == "" ==> p == r + [""]
    ensures p[|p| - 1] != "" ==> r == p
  {
    if p[|p| - 1] == "" then p[..|p| - 1] else p
  }

  lemma SplitLinesFree(t: string)
    ensures var lines := DropEmptyLast(SplitOn(t, "\n"));
            forall k :: 0 <= k < |lines| ==> '\n' !in lines[k]
  {
    var p := SplitOn(t, "\n");
    var lines := DropEmptyLast(p);
    forall k | 0 <= k < |lines| ensures '\n' !in lines[k] {
      assert k < |p| && lines[k] == p[k];
      SplitNewlinePieceFree(t, k);
    }
  }

  lemma SplitLinesJoin(t: string)
    ensures var lines := DropEmptyLast(SplitOn(t, "\n"));
            (t == "" <==> lines == []) &&
            ((t == "" || t[|t| - 1] != '\n') ==> Join(lines, "\n") == t) &&
            ((t != "" && t[|t| - 1] == '\n') ==> Join(lines, "\n") + "\n" == t)
  {
    var p := SplitOn(t, "\n");
    var lines := DropEmptyLast(p);
    SplitOnJoin(t, "\n");
    SplitNewlineLast(t);
    if t == "" {
      SplitOnAbsent(t, "\n");
    } else if t[|t| - 1] == '\n' {
      assert p == lines + [""];
      assert "\n" == ['\n'];
      ContainsCharIff(t, '\n');
      assert |p| >= 2;
      JoinSnoc(lines, "", "\n");
    }
  }

  /** A non-empty line without '\n' followed by one '\n' is that single line. */
  lemma SplitLinesSingle(x: string)
    requires x != "" && '\n' !in x
    ensures SplitLines(x + "\n") == [x]
  {
    var t := x + "\n";
    var lines := SplitLines(t);
    assert t[|t| - 1] == '\n';
    assert Join(lines, "\n") == x;
  }

  /** A line as `readlines` cuts it: not empty, with a '\n' at most as its last character. */
  predicate IsReadLine(l: string) {
    l != "" && '\n' !in l[..|l| - 1]
  }

  predicate EndsWithNewline(s: string) {
    s != "" && s[|s| - 1] == '\n'
  }

  /**
   * Python's `f.readlines()`: the text cut after every '\n', each line keeping its newline
   * (the last line lacks it when the text does not end with one). The lines put together
   * give the text back.
   */
  function ReadLines(t: string): (lines: seq<string>)
    ensures Join(lines, "") == t
    ensures lines == [] <==> t == ""
    ensures forall k :: 0 <= k < |lines| ==> IsReadLine(lines[k])
    ensures forall k :: 0 <= k < |lines| - 1 ==> EndsWithNewline(lines[k])
    ensures lines != [] ==> (EndsWithNewline(lines[|lines| - 1]) <==> EndsWithNewline(t))
  {
    var p := SplitOn(t, "\n");
    SplitOnJoin(t, "\n");
    KeepNewlinesJoin(p);
    SplitNewlinePiecesFree(t);
    KeepNewlinesShape(p);
    SplitNewlineLast(t);
    SplitNewlineEmpty(t);
    KeepNewlines(p)
  }

  lemma SplitNewlineEmpty(t: string)
    ensures t == "" ==> SplitOn(t, "\n") == [""]
  {
    if t == "" {
      ContainsCharIff(t, '\n');
      SplitOnAbsent(t, "\n");
    }
  }

  lemma SplitNewlinePiecesFree(t: string)
    ensures var p := SplitOn(t, "\n"); forall k :: 0 <= k < |p| ==> '\n' !in p[k]
  {
    forall k | 0 <= k < |SplitOn(t, "\n")| ensures '\n' !in SplitOn(t, "\n")[k] {
      SplitNewlinePieceFree(t, k);
    }
  }

  /** The kept lines are the pieces with '\n' put back, the last one bare and dropped when empty. */
  lemma {:induction false} KeepNewlinesAt(p: seq<string>)
    requires |p| >= 1
    ensures |KeepNewlines(p)| == (if p[|p| - 1] == "" then |p| - 1 else |p|)
    ensures forall k :: 0 <= k < |p| - 1 ==> KeepNewlines(p)[k] == p[k] + "\n"
    ensures p[|p| - 1] != "" ==> KeepNewlines(p)[|p| - 1] == p[|p| - 1]
    decreases |p|
  {
    if |p| > 1 {
      var q := p[1..];
      KeepNewlinesAt(q);
      var lines := KeepNewlines(p);
      assert lines == [p[0] + "\n"] + KeepNewlines(q);
      forall k | 0 < k < |p| - 1 ensures lines[k] == p[k] + "\n" {
        assert lines[k] == KeepNewlines(q)[k - 1] && q[k - 1] == p[k];
      }
      assert q[|q| - 1] == p[|p| - 1];
    }
  }

  /** The kept lines of newline-free pieces are lines as `readlines` cuts them. */
  lemma KeepNewlinesShape(p: seq<string>)
    requires |p| >= 1 && forall k :: 0 <= k < |p| ==> '\n' !in p[k]
    ensures var lines := KeepNewlines(p);
            (lines == [] <==> p == [""]) &&
            (forall k :: 0 <= k < |lines| ==> IsReadLine(lines[k])) &&
            (forall k :: 0 <= k < |lines| - 1 ==> EndsWithNewline(lines[k])) &&
            (lines != [] ==> (EndsWithNewline(lines[|lines| - 1]) <==> p[|p| - 1] == ""))
  {
    var lines := KeepNewlines(p);
    var n := |p| - 1;
    KeepNewlinesAt(p);
    forall k | 0 <= k < |lines| ensures IsReadLine(lines[k]) && (k < n ==> EndsWithNewline(lines[k])) {
      if k < n {
        assert lines[k][..|lines[k]| - 1] == p[k];
      } else {
        assert lines[k] == p[k];
        assert p[k][..|p[k]| - 1] + [p[k][|p[k]| - 1]] == p[k];
      }
    }
  }

  /** Every piece but the last with its '\n' put back, then the last piece when it is not empty. */
  function KeepNewlines(p: seq<string>): (lines: seq<string>)
    requires |p| >= 1
    ensures forall k :: 0 <= k < |lines| ==> lines[k] != ""
    decreases |p|
  {
    if |p| == 1 then (if p[0] == "" then [] else [p[0]])
    else [p[0] + "\n"] + KeepNewlines(p[1..])
  }

  /** Putting the kept lines together is joining the pieces with '\n'. */
  lemma {:induction false} KeepNewlinesJoin(p: seq<string>)
    requires |p| >= 1
    ensures Join(KeepNewlines(p), "") == Join(p, "\n")
    decreases |p|
  {
    if |p| > 1 {
      var rest := KeepNewlines(p[1..]);
      KeepNewlinesJoin(p[1..]);
      JoinCons(p[0] + "\n", rest, "");
      if rest == [] {
        assert Join(p[1..], "\n") == "";
      }
    }
  }

  // ---------------------------------------------------------------------------
  // List comprehensions

  /** Python's `[conv(x) for x in xs if keep(x)]`. */
  function FilterMap(xs: seq<string>, keep: string -> bool, conv: string -> string): seq<string>
    decreases |xs|
  {
    if xs == [] then []
    else
      var x := xs[|xs| - 1];
      FilterMap(xs[..|xs| - 1], keep, conv) + (if keep(x) then [conv(x)] else [])
  }

  /** A comprehension over consecutive runs is the two results one after the other. */
  lemma {:induction false} FilterMapAppend(a: seq<string>, b: seq<string>, keep: string -> bool, conv: string -> string)
    ensures FilterMap(a + b, keep, conv) == FilterMap(a, keep, conv) + FilterMap(b, keep, conv)
    decreases |b|
  {
    if b == [] {
      assert a + b == a;
    } else {
      var n := |b| - 1;
      assert (a + b)[..|a + b| - 1] == a + b[..n];
      assert (a + b)[|a + b| - 1] == b[n];
      FilterMapAppend(a, b[..n], keep, conv);
    }
  }

  /** A comprehension over one element. */
  lemma FilterMapOne(x: string, keep: string -> bool, conv: string -> string)
    ensures FilterMap([x], keep, conv) == if keep(x) then [conv(x)] else []
  {
    assert [x][..0] == [];
  }

  /** Every result of a comprehension comes from a kept element, and the results before it from the elements before that one. */
  lemma {:induction false} FilterMapSource(xs: seq<string>, keep: string -> bool, conv: string -> string, k: nat) returns (j: nat)
    requires k < |FilterMap(xs, keep, conv)|
    ensures j < |xs| && keep(xs[j]) && FilterMap(xs, keep, conv)[k] == conv(xs[j])
    ensures |FilterMap(xs[..j], keep, conv)| == k
    decreases |xs|
  {
    var n := |xs| - 1;
    var init := xs[..n];
    if k < |FilterMap(init, keep, conv)| {
      j := FilterMapSource(init, keep, conv, k);
      assert init[j] == xs[j];
      assert init[..j] == xs[..j];
    } else {
      j := n;
      assert xs[..j] == init;
    }
  }

  // ---------------------------------------------------------------------------
  // Numbers

  function DigitChar(d: nat): (c: char)
    requires d < 10
    ensures '0' <= c <= '9' && c as int - '0' as int == d
  {
    ('0' as int + d) as char
  }

  /** Python's `str(n)` for a natural number: its decimal digits. */
  function NatToString(n: nat): (r: string)
    ensures r != ""
    ensures forall k :: 0 <= k < |r| ==> '0' <= r[k] <= '9'
    ensures n >= 10 ==> |r| >= 2
    decreases n
  {
    if n < 10 then [DigitChar(n)] else NatToString(n / 10) + [DigitChar(n % 10)]
  }

  /** The last digit of `str(n)` is `n % 10`, and the digits before it are `str(n / 10)`. */
  lemma NatToStringLast(n: nat)
    ensures var r := NatToString(n);
            r[|r| - 1] == DigitChar(n % 10) && (n < 10 <==> |r| == 1) &&
            (n >= 10 ==> r[..|r| - 1] == NatToString(n / 10))
  {
  }

  /** Different numbers have different decimal representations. */
  lemma {:induction false} NatToStringInjective(m: nat, n: nat)
    requires NatToString(m) == NatToString(n)
    ensures m == n
    decreases m
  {
    NatToStringLast(m);
    NatToStringLast(n);
    assert m % 10 == n % 10;
    if m >= 10 {
      NatToStringInjective(m / 10, n / 10);
    }
  }

  /** Python's `str(i)` for an integer. */
  function IntToString(i: int): (r: string)
    ensures r != ""
  {
    if i < 0 then "-" + NatToString(-i) else NatToString(i)
  }
}
