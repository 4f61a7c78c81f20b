/**
  The JavaScript string built-ins that the text pipeline relies on, over
  strings of Unicode scalar values: `trimEnd`, `trim`, `replace` with a
  global literal pattern, `split` on one character, `Array.prototype.join`,
  `includes`, `toLowerCase` and the UTF-16 `length`.
*/
module JsText {

  /** The ECMAScript WhiteSpace and LineTerminator code points, which
      `trim` and `trimEnd` remove. */
  predicate IsWs(c: char) {
    c == '\t' || c == '\U{B}' || c == '\U{C}' || c == ' ' || c == '\U{A0}' || c == '\U{FEFF}'
    || c == '\n' || c == '\r' || c == '\U{2028}' || c == '\U{2029}'
    || c == '\U{1680}' || ('\U{2000}' <= c <= '\U{200A}')
    || c == '\U{202F}' || c == '\U{205F}' || c == '\U{3000}'
  }

  /** Every character of `s` is whitespace (the empty string included). */
  predicate IsBlank(s: string) {
    forall i :: 0 <= i < |s| ==> IsWs(s[i])
  }

  /** `s.length`: the number of UTF-16 code units, two for a code point
      above U+FFFF. */
  function JsLength(s: string): (n: nat)
    ensures |s| <= n <= 2 * |s|
  {
    if s == [] then 0 else (if s[0] as int > 0xFFFF then 2 else 1) + JsLength(s[1..])
  }

  /** `s.trimEnd()`. */
  function TrimEnd(s: string): string
    decreases |s|
  {
    if s != [] && IsWs(s[|s| - 1]) then TrimEnd(s[..|s| - 1]) else s
  }

  /** `trimEnd` keeps the longest prefix that does not end in whitespace:
      what it drops is all whitespace, and what it keeps is untouched. */
  lemma {:induction false} TrimEndSpec(s: string)
    ensures TrimEnd(s) <= s
    ensures IsBlank(s[|TrimEnd(s)|..])
    ensures TrimEnd(s) == [] || !IsWs(TrimEnd(s)[|TrimEnd(s)| - 1])
    decreases |s|
  {
    if s != [] && IsWs(s[|s| - 1]) {
      var r := TrimEnd(s[..|s| - 1]);
      TrimEndSpec(s[..|s| - 1]);
      assert s[|r|..] == s[..|s| - 1][|r|..] + [s[|s| - 1]];
    }
  }

  /** `s.trimStart()`. */
  function TrimStart(s: string): string {
    if s != [] && IsWs(s[0]) then TrimStart(s[1..]) else s
  }

  /** `trimStart` keeps the longest suffix that does not start with whitespace. */
  lemma {:induction false} TrimStartSpec(s: string)
    ensures |TrimStart(s)| <= |s| && TrimStart(s) == s[|s| - |TrimStart(s)|..]
    ensures IsBlank(s[..|s| - |TrimStart(s)|])
    ensures TrimStart(s) == [] || !IsWs(TrimStart(s)[0])
  {
    if s != [] && IsWs(s[0]) {
      var r := TrimStart(s[1..]);
      TrimStartSpec(s[1..]);
      assert s[..|s| - |r|] == [s[0]] + s[1..][..|s| - 1 - |r|];
    }
  }

  /** `s.trim()`. */
  function Trim(s: string): string {
    TrimStart(TrimEnd(s))
  }

  lemma TrimEndBlank(s: string)
    ensures TrimEnd(s) == [] <==> IsBlank(s)
  {
    var r := TrimEnd(s);
    TrimEndSpec(s);
    if r != [] {
      assert r[|r| - 1] == s[|r| - 1];
    }
    if r == [] {
      assert s == s[|r|..];
    }
  }

  /** `s.trim()` is empty exactly when `s` holds only whitespace. */
  lemma TrimEmptyIffBlank(s: string)
    ensures Trim(s) == [] <==> IsBlank(s)
  {
    var e := TrimEnd(s);
    TrimEndBlank(s);
    TrimStartSpec(e);
    TrimEndSpec(s);
    if Trim(s) == [] {
      assert IsBlank(e) by { assert e == e[..|e| - 0]; }
    }
    if IsBlank(s) {
      assert e == [];
      assert Trim(s) == TrimStart(e);
    }
  }

  /** `s.replace(/pat/g, rep)` for a literal pattern: matches are taken
      from left to right and do not overlap. */
  function ReplaceAll(s: string, pat: string, rep: string): string
    requires pat != []
    decreases |s|
  {
    if pat <= s then rep + ReplaceAll(s[|pat|..], pat, rep)
    else if s == [] then []
    else [s[0]] + ReplaceAll(s[1..], pat, rep)
  }

  /** `sub` occurs in `s` starting at index `i`. */
  predicate OccursAt(s: string, sub: string, i: int) {
    0 <= i <= |s| - |sub| && s[i..i + |sub|] == sub
  }

  /** `s.includes(sub)`. */
  function Contains(s: string, sub: string): bool
    decreases |s|
  {
    if |sub| > |s| then false
    else if s[..|sub|] == sub then true
    else s != [] && Contains(s[1..], sub)
  }

  /** A slice of the tail is the slice one position further on. */
  lemma SliceOfTail(s: string, a: int, b: int)
    requires 0 <= a <= b <= |s| - 1
    ensures s[1..][a..b] == s[a + 1..b + 1]
  {
    assert forall k :: 0 <= k < b - a ==> s[1..][a..b][k] == s[a + 1..b + 1][k];
  }

  /** `Contains` agrees with the textbook definition of a substring. */
  lemma {:induction false} ContainsIff(s: string, sub: string)
    ensures Contains(s, sub) <==> exists i :: OccursAt(s, sub, i)
    decreases |s|
  {
    if |sub| > |s| {
    } else if s[..|sub|] == sub {
      assert OccursAt(s, sub, 0);
    } else if s == [] {
    } else {
      ContainsIff(s[1..], sub);
      if Contains(s[1..], sub) {
        var i :| OccursAt(s[1..], sub, i);
        SliceOfTail(s, i, i + |sub|);
        assert OccursAt(s, sub, i + 1);
      } else {
        forall i | OccursAt(s, sub, i)
          ensures false
        {
          if i > 0 {
            SliceOfTail(s, i - 1, i - 1 + |sub|);
            assert OccursAt(s[1..], sub, i - 1);
          }
        }
      }
    }
  }

  /** A string that does not contain the pattern is left unchanged. */
  lemma {:induction false} ReplaceAllAbsent(s: string, pat: string, rep: string)
    requires pat != [] && !Contains(s, pat)
    ensures ReplaceAll(s, pat, rep) == s
    decreases |s|
  {
    if s != [] {
      ReplaceAllAbsent(s[1..], pat, rep);
    }
  }

  /** No match of a pattern of at most two characters straddles the end
      of `x` and the start of `y`. */
  predicate NoStraddle(x: string, y: string, pat: string) {
    !(|pat| == 2 && x != [] && y != [] && x[|x| - 1] == pat[0] && y[0] == pat[1])
  }

  /** One step of `ReplaceAll` when the pattern starts the text. */
  lemma ReplaceAllMatch(s: string, pat: string, rep: string)
    requires pat != [] && pat <= s
    ensures ReplaceAll(s, pat, rep) == rep + ReplaceAll(s[|pat|..], pat, rep)
  {
  }

  /** One step of `ReplaceAll` when the pattern does not start the text. */
  lemma ReplaceAllSkip(s: string, pat: string, rep: string)
    requires pat != [] && s != [] && !(pat <= s)
    ensures ReplaceAll(s, pat, rep) == [s[0]] + ReplaceAll(s[1..], pat, rep)
  {
  }

  /** Replacement distributes over a concatenation no match straddles. */
  lemma {:induction false} ReplaceAllAppend(x: string, y: string, pat: string, rep: string)
    requires 1 <= |pat| <= 2 && NoStraddle(x, y, pat)
    ensures ReplaceAll(x + y, pat, rep) == ReplaceAll(x, pat, rep) + ReplaceAll(y, pat, rep)
    decreases |x|, 1
  {
    if x == [] {
      assert x + y == y;
    } else if pat <= x {
      ReplaceAllAppendMatch(x, y, pat, rep);
    } else {
      ReplaceAllAppendSkip(x, y, pat, rep);
    }
  }

  /** `ReplaceAllAppend` when `x` starts with a match. */
  lemma {:induction false} ReplaceAllAppendMatch(x: string, y: string, pat: string, rep: string)
    requires 1 <= |pat| <= 2 && NoStraddle(x, y, pat)
    requires pat <= x
    ensures ReplaceAll(x + y, pat, rep) == ReplaceAll(x, pat, rep) + ReplaceAll(y, pat, rep)
    decreases |x|, 0
  {
    var s := x + y;
    var x' := x[|pat|..];
    assert pat <= s && s[|pat|..] == x' + y;
    assert NoStraddle(x', y, pat) by {
      if x' != [] { assert x'[|x'| - 1] == x[|x| - 1]; }
    }
    calc {
      ReplaceAll(s, pat, rep);
      { ReplaceAllMatch(s, pat, rep); }
      rep + ReplaceAll(x' + y, pat, rep);
      { ReplaceAllAppend(x', y, pat, rep); }
      rep + (ReplaceAll(x', pat, rep) + ReplaceAll(y, pat, rep));
      { ReplaceAllMatch(x, pat, rep); }
      ReplaceAll(x, pat, rep) + ReplaceAll(y, pat, rep);
    }
  }

  /** `ReplaceAllAppend` when `x` does not start with a match. */
  lemma {:induction false} ReplaceAllAppendSkip(x: string, y: string, pat: string, rep: string)
    requires 1 <= |pat| <= 2 && NoStraddle(x, y, pat)
    requires x != [] && !(pat <= x)
    ensures ReplaceAll(x + y, pat, rep) == ReplaceAll(x, pat, rep) + ReplaceAll(y, pat, rep)
    decreases |x|, 0
  {
    var s := x + y;
    var x' := x[1..];
    assert s[0] == x[0] && s[1..] == x' + y;
    NoMatchAtFront(x, y, pat);
    assert NoStraddle(x', y, pat) by {
      if x' != [] { assert x'[|x'| - 1] == x[|x| - 1]; }
    }
    calc {
      ReplaceAll(s, pat, rep);
      { ReplaceAllSkip(s, pat, rep); }
      [x[0]] + ReplaceAll(x' + y, pat, rep);
      { ReplaceAllAppend(x', y, pat, rep); }
      [x[0]] + (ReplaceAll(x', pat, rep) + ReplaceAll(y, pat, rep));
      { ReplaceAllSkip(x, pat, rep); }
      ReplaceAll(x, pat, rep) + ReplaceAll(y, pat, rep);
    }
  }

  /** With no straddling match, `x + y` starts with a match only when `x` does. */
  lemma NoMatchAtFront(x: string, y: string, pat: string)
    requires 1 <= |pat| <= 2 && NoStraddle(x, y, pat)
    requires x != [] && !(pat <= x)
    ensures !(pat <= x + y)
  {
    var n := |pat|;
    var s := x + y;
    if n <= |x| {
      assert s[..n] == x[..n];
    } else if n <= |s| {
      assert s[..n][0] == x[0] && s[..n][1] == y[0];
    }
  }

  /** Replacing every occurrence of one character by text without it
      leaves none of that character behind. */
  lemma {:induction false} ReplaceAllRemovesChar(s: string, c: char, rep: string)
    requires c !in rep
    ensures c !in ReplaceAll(s, [c], rep)
    decreases |s|
  {
    if s != [] {
      ReplaceAllRemovesChar(s[1..], c, rep);
    }
  }

  /** Replacing with whitespace keeps a whitespace text all whitespace. */
  lemma {:induction false} ReplaceAllBlank(s: string, pat: string, rep: string)
    requires pat != [] && IsBlank(s) && IsBlank(rep)
    ensures IsBlank(ReplaceAll(s, pat, rep))
    decreases |s|
  {
    if pat <= s {
      var t := ReplaceAll(s[|pat|..], pat, rep);
      ReplaceAllBlank(s[|pat|..], pat, rep);
      assert forall k :: 0 <= k < |rep + t| ==> (rep + t)[k] == if k < |rep| then rep[k] else t[k - |rep|];
    } else if s != [] {
      var t := ReplaceAll(s[1..], pat, rep);
      ReplaceAllBlank(s[1..], pat, rep);
      assert forall k :: 0 <= k < |[s[0]] + t| ==> ([s[0]] + t)[k] == if k == 0 then s[0] else t[k - 1];
    }
  }

  /** The number of occurrences of `c` in `s`. */
  function CountChar(s: string, c: char): nat {
    if s == [] then 0 else (if s[0] == c then 1 else 0) + CountChar(s[1..], c)
  }

  /** `parts.join(sep)`. */
  function JoinWith(parts: seq<string>, sep: string): string {
    if parts == [] then []
    else if |parts| == 1 then parts[0]
    else parts[0] + sep + JoinWith(parts[1..], sep)
  }

  /** `s.split(d)` for a one-character separator: the pieces between the
      occurrences of `d`, one more piece than there are separators. */
  function Split(s: string, d: char): (parts: seq<string>)
    ensures |parts| == CountChar(s, d) + 1
    ensures forall i :: 0 <= i < |parts| ==> d !in parts[i]
  {
    if s == [] then [[]]
    else
      var rest := Split(s[1..], d);
      if s[0] == d then [[]] + rest else [[s[0]] + rest[0]] + rest[1..]
  }

  /** The pieces of a whitespace text are all whitespace. */
  lemma {:induction false} SplitBlank(s: string, d: char)
    requires IsBlank(s)
    ensures forall i :: 0 <= i < |Split(s, d)| ==> IsBlank(Split(s, d)[i])
    decreases |s|
  {
    if s != [] {
      var rest := Split(s[1..], d);
      SplitBlank(s[1..], d);
      if s[0] != d {
        var first := [s[0]] + rest[0];
        assert IsBlank(first) by {
          assert forall k :: 0 <= k < |first| ==> first[k] == if k == 0 then s[0] else rest[0][k - 1];
        }
        assert Split(s, d) == [first] + rest[1..];
      }
    }
  }

  /** Joining the pieces of a split with the separator gives back the string. */
  lemma {:induction false} JoinSplit(s: string, d: char)
    ensures JoinWith(Split(s, d), [d]) == s
    decreases |s|
  {
    if s != [] {
      JoinSplit(s[1..], d);
      var rest := Split(s[1..], d);
      if s[0] != d {
        var parts := [[s[0]] + rest[0]] + rest[1..];
        if |rest| > 1 {
          assert parts[1..] == rest[1..];
          assert JoinWith(rest, [d]) == rest[0] + [d] + JoinWith(rest[1..], [d]);
        }
      } else {
        assert ([[]] + rest)[1..] == rest;
      }
    }
  }

  /** Splitting a join of separator-free pieces gives back the pieces. */
  lemma {:induction false} SplitJoin(parts: seq<string>, d: char)
    requires parts != []
    requires forall p | p in parts :: d !in p
    ensures Split(JoinWith(parts, [d]), d) == parts
    decreases |parts|, |parts[0]|, 1
  {
    if parts[0] == [] {
      if |parts| > 1 {
        SplitJoinEmptyFirst(parts, d);
      }
    } else {
      SplitJoinFirst(parts, d);
    }
  }

  /** `SplitJoin` when the first piece is empty: the joined string starts
      with the separator. */
  lemma {:induction false} SplitJoinEmptyFirst(parts: seq<string>, d: char)
    requires |parts| > 1 && parts[0] == []
    requires forall p | p in parts :: d !in p
    ensures Split(JoinWith(parts, [d]), d) == parts
    decreases |parts|, |parts[0]|, 0
  {
    var tail := parts[1..];
    assert forall q | q in tail :: d !in q by {
      assert forall q | q in tail :: q in parts;
    }
    SplitJoin(tail, d);
    var j := JoinWith(parts, [d]);
    assert j == [d] + JoinWith(tail, [d]);
    assert j[1..] == JoinWith(tail, [d]);
    assert Split(j, d) == [[]] + Split(j[1..], d);
    assert [[]] + tail == parts;
  }

  /** `SplitJoin` when the first piece is not empty: its first character
      starts the joined string and the first piece of the split. */
  lemma {:induction false} SplitJoinFirst(parts: seq<string>, d: char)
    requires parts != [] && parts[0] != []
    requires forall p | p in parts :: d !in p
    ensures Split(JoinWith(parts, [d]), d) == parts
    decreases |parts|, |parts[0]|, 0
  {
    var p := parts[0];
    var shorter := [p[1..]] + parts[1..];
    assert shorter[1..] == parts[1..];
    assert forall q | q in shorter :: d !in q by {
      assert forall q | q in shorter :: q == p[1..] || q in parts;
      assert p in parts;
    }
    SplitJoin(shorter, d);
    var j := JoinWith(parts, [d]);
    JoinWithHead(parts, [d]);
    assert j[1..] == JoinWith(shorter, [d]);
    assert p[0] != d by { assert p in parts; }
    var rest := Split(j[1..], d);
    assert rest == shorter;
    assert Split(j, d) == [[p[0]] + rest[0]] + rest[1..];
    assert [p[0]] + p[1..] == p;
    assert [p] + parts[1..] == parts;
  }

  /** The first character of a join whose first part is not empty. */
  lemma JoinWithHead(parts: seq<string>, sep: string)
    requires parts != [] && parts[0] != []
    ensures JoinWith(parts, sep) == [parts[0][0]] + JoinWith([parts[0][1..]] + parts[1..], sep)
  {
    var p := parts[0];
    var shorter := [p[1..]] + parts[1..];
    assert shorter[0] == p[1..] && shorter[1..] == parts[1..];
    if |parts| == 1 {
      assert p == [p[0]] + p[1..];
    } else {
      assert p + sep + JoinWith(parts[1..], sep) == [p[0]] + (p[1..] + sep + JoinWith(parts[1..], sep));
    }
  }

  /** Appending one more part to a join. */
  lemma {:induction false} JoinWithSnoc(parts: seq<string>, x: string, sep: string)
    ensures JoinWith(parts + [x], sep) == if parts == [] then x else JoinWith(parts, sep) + sep + x
    decreases |parts|
  {
    if |parts| > 1 {
      assert (parts + [x])[1..] == parts[1..] + [x];
      JoinWithSnoc(parts[1..], x, sep);
    } else if |parts| == 1 {
      assert (parts + [x])[1..] == [x];
    }
  }

  /** `c.toLowerCase()` on ASCII letters. */
  function LowerChar(c: char): char {
    if 'A' <= c <= 'Z' then (c as int + 32) as char else c
  }

  /** `s.toLowerCase()`, lowering the ASCII letters A to Z. */
  function ToLower(s: string): (r: string)
    ensures |r| == |s|
    ensures forall i :: 0 <= i < |s| ==> r[i] == LowerChar(s[i])
  {
    if s == [] then [] else [LowerChar(s[0])] + ToLower(s[1..])
  }
}
