/**
 * The java.lang.String operations the crawler uses: `replace(target, "")`,
 * which deletes every occurrence of a literal, and `equalsIgnoreCase`.
 */
module JavaStrings {

  /**
   * `s.replace(target, "")`: scans left to right and deletes each occurrence
   * of `target` that starts after the previous deletion.
   */
  function RemoveAll(s: string, target: string): (r: string)
    requires |target| > 0
    ensures |r| <= |s|
    ensures |target| == 1 ==> target[0] !in r
    decreases |s|
  {
    if |s| < |target| then s
    else if s[..|target|] == target then RemoveAll(s[|target|..], target)
    else
      assert |target| == 1 ==> s[0] != target[0];
      [s[0]] + RemoveAll(s[1..], target)
  }

  /** The characters of s other than c, in their order: the reference for a one-character RemoveAll. */
  function Without(s: string, c: char): (r: string)
    decreases |s|
  {
    if s == [] then [] else (if s[0] == c then [] else [s[0]]) + Without(s[1..], c)
  }

  /** Number of occurrences of c in s. */
  function Count(s: string, c: char): nat
    decreases |s|
  {
    if s == [] then 0 else (if s[0] == c then 1 else 0) + Count(s[1..], c)
  }

  /** ASCII case folding, the mapping equalsIgnoreCase applies to ASCII letters. */
  function LowerAscii(c: char): (d: char)
  {
    if 'A' <= c <= 'Z' then (c as int + 32) as char else c
  }

  /** `a.equalsIgnoreCase(b)` for ASCII text: same length, same letters up to case. */
  predicate EqualsIgnoreCase(a: string, b: string)
    ensures a == b ==> EqualsIgnoreCase(a, b)
    ensures EqualsIgnoreCase(a, b) ==> |a| == |b|
  {
    |a| == |b| && forall i :: 0 <= i < |a| ==> LowerAscii(a[i]) == LowerAscii(b[i])
  }

  /** Deleting a one-character literal keeps exactly the other characters, in order. */
  lemma {:induction false} RemoveOneCharIsWithout(s: string, c: char)
    ensures RemoveAll(s, [c]) == Without(s, c)
    decreases |s|
  {
    if s != [] {
      RemoveOneCharIsWithout(s[1..], c);
    }
  }

  /** Without leaves no c behind, keeps every other character, and adds none. */
  lemma {:induction false} WithoutMembers(s: string, c: char)
    ensures c !in Without(s, c)
    ensures forall d :: d != c ==> (d in Without(s, c) <==> d in s)
    decreases |s|
  {
    if s != [] {
      WithoutMembers(s[1..], c);
      assert s == [s[0]] + s[1..];
    }
  }

  /** Text without c is left as it is. */
  lemma {:induction false} WithoutAbsent(s: string, c: char)
    requires c !in s
    ensures Without(s, c) == s
    decreases |s|
  {
    if s != [] {
      WithoutAbsent(s[1..], c);
      assert s == [s[0]] + s[1..];
    }
  }

  /** Deleting a character that does not occur leaves the text as it is. */
  lemma RemoveAbsentChar(s: string, c: char)
    requires c !in s
    ensures RemoveAll(s, [c]) == s
  {
    RemoveOneCharIsWithout(s, c);
    WithoutAbsent(s, c);
  }

  /** Deleting never brings in a character that was absent. */
  lemma {:induction false} RemoveAllKeepsAbsent(s: string, target: string, c: char)
    requires |target| > 0 && c !in s
    ensures c !in RemoveAll(s, target)
    decreases |s|
  {
    if |s| >= |target| {
      if s[..|target|] == target {
        assert forall d :: d in s[|target|..] ==> d in s;
        RemoveAllKeepsAbsent(s[|target|..], target, c);
      } else {
        assert forall d :: d in s[1..] ==> d in s;
        RemoveAllKeepsAbsent(s[1..], target, c);
      }
    }
  }

  /** Without distributes over concatenation. */
  lemma {:induction false} WithoutConcat(a: string, b: string, c: char)
    ensures Without(a + b, c) == Without(a, c) + Without(b, c)
    decreases |a|
  {
    if a == [] {
      assert a + b == b;
    } else {
      var head: string := if a[0] == c then [] else [a[0]];
      WithoutConcat(a[1..], b, c);
      assert (a + b)[0] == a[0];
      assert (a + b)[1..] == a[1..] + b;
      assert Without(a + b, c) == head + Without(a[1..] + b, c);
      assert Without(a, c) == head + Without(a[1..], c);
    }
  }

  /** Deleting a one-character literal commutes with concatenation. */
  lemma RemoveOneCharConcat(a: string, b: string, c: char)
    ensures RemoveAll(a + b, [c]) == RemoveAll(a, [c]) + RemoveAll(b, [c])
  {
    RemoveOneCharIsWithout(a + b, c);
    RemoveOneCharIsWithout(a, c);
    RemoveOneCharIsWithout(b, c);
    WithoutConcat(a, b, c);
  }

  /**
   * Text that does not contain the first character of `target`, followed by
   * `target` itself: the deletion removes exactly the trailing `target`.
   */
  lemma {:induction false} RemoveAllTrailing(s: string, target: string)
    requires |target| > 0 && target[0] !in s
    ensures RemoveAll(s + target, target) == s
    decreases |s|
  {
    var t := s + target;
    if s == [] {
      assert t[..|target|] == target && t[|target|..] == [];
    } else {
      assert t[..|target|] != target by { assert t[0] == s[0]; assert s[0] in s; }
      assert t[1..] == s[1..] + target;
      RemoveAllTrailing(s[1..], target);
    }
  }

  /** Occurrences add up over concatenation. */
  lemma {:induction false} CountConcat(a: string, b: string, c: char)
    ensures Count(a + b, c) == Count(a, c) + Count(b, c)
    decreases |a|
  {
    if a == [] {
      assert a + b == b;
    } else {
      CountConcat(a[1..], b, c);
      assert (a + b)[1..] == a[1..] + b;
    }
  }

  /** Text without c contains it zero times. */
  lemma {:induction false} CountAbsent(s: string, c: char)
    requires c !in s
    ensures Count(s, c) == 0
    decreases |s|
  {
    if s != [] {
      assert s == [s[0]] + s[1..];
      CountAbsent(s[1..], c);
    }
  }
}
