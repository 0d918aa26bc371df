/**
 Header names are strings compared two ways: byte-wise (the default emission
 order) and ASCII case-insensitively (matching a name against an entry of the
 Header-Order list). A Dafny `char` is a Unicode scalar value; comparing scalar
 values orders strings exactly as comparing their UTF-8 bytes does, so `Less`
 below is the byte-wise order of the encoded names.
 */
module Strings {

  /** Byte-wise (ordinal) strict order on strings. */
  predicate Less(a: string, b: string)
  {
    if |a| == 0 then |b| > 0
    else if |b| == 0 then false
    else if a[0] == b[0] then Less(a[1..], b[1..])
    else a[0] < b[0]
  }

  /** The textbook definition of lexicographic order: a proper prefix comes
      first, otherwise the first differing character decides. */
  ghost predicate LexLess(a: string, b: string)
  {
    || (|a| < |b| && a == b[..|a|])
    || exists k :: 0 <= k < |a| && k < |b| && a[..k] == b[..k] && a[k] < b[k]
  }

  /** `Less` is exactly lexicographic order. */
  lemma LessIsLexicographic(a: string, b: string)
    ensures Less(a, b) <==> LexLess(a, b)
  {
    if Less(a, b) {
      LessIsLex(a, b);
    }
    if LexLess(a, b) {
      LexIsLess(a, b);
    }
  }

  lemma {:induction false} LessIsLex(a: string, b: string)
    requires Less(a, b)
    ensures LexLess(a, b)
  {
    if |a| == 0 {
      assert a == b[..0];
    } else if a[0] != b[0] {
      assert a[..0] == b[..0];
    } else {
      var a', b' := a[1..], b[1..];
      LessIsLex(a', b');
      if |a'| < |b'| && a' == b'[..|a'|] {
        assert a == [a[0]] + a' && b[..|a|] == [b[0]] + b'[..|a'|];
      } else {
        var k :| 0 <= k < |a'| && k < |b'| && a'[..k] == b'[..k] && a'[k] < b'[k];
        assert a[..k + 1] == [a[0]] + a'[..k] && b[..k + 1] == [b[0]] + b'[..k];
        assert a[k + 1] == a'[k] && b[k + 1] == b'[k];
      }
    }
  }

  lemma {:induction false} LexIsLess(a: string, b: string)
    requires LexLess(a, b)
    ensures Less(a, b)
  {
    if |a| > 0 && a[0] == b[0] {
      var a', b' := a[1..], b[1..];
      if |a| < |b| && a == b[..|a|] {
        assert a' == a[1..] == b[..|a|][1..] == b'[..|a'|];
      } else {
        var k :| 0 <= k < |a| && k < |b| && a[..k] == b[..k] && a[k] < b[k];
        assert k > 0;
        assert a'[..k - 1] == a[..k][1..] && b'[..k - 1] == b[..k][1..];
        assert a'[k - 1] == a[k] && b'[k - 1] == b[k];
      }
      LexIsLess(a', b');
    }
  }

  lemma {:induction false} LessIrreflexive(a: string)
    ensures !Less(a, a)
  {
    if |a| > 0 {
      LessIrreflexive(a[1..]);
    }
  }

  lemma {:induction false} LessAsymmetric(a: string, b: string)
    ensures !(Less(a, b) && Less(b, a))
  {
    if |a| > 0 && |b| > 0 && a[0] == b[0] {
      LessAsymmetric(a[1..], b[1..]);
    }
  }

  lemma {:induction false} LessTransitive(a: string, b: string, c: string)
    requires Less(a, b) && Less(b, c)
    ensures Less(a, c)
  {
    if |a| > 0 && a[0] == b[0] && b[0] == c[0] {
      LessTransitive(a[1..], b[1..], c[1..]);
    }
  }

  /** A common prefix does not change the order. */
  lemma {:induction false} LessSharedPrefix(p: string, a: string, b: string)
    requires Less(a, b)
    ensures Less(p + a, p + b)
  {
    if |p| == 0 {
      assert p + a == a && p + b == b;
    } else {
      assert (p + a)[0] == p[0] == (p + b)[0];
      assert (p + a)[1..] == p[1..] + a && (p + b)[1..] == p[1..] + b;
      LessSharedPrefix(p[1..], a, b);
    }
  }

  /** Any two different strings are comparable. */
  lemma {:induction false} LessTotal(a: string, b: string)
    requires a != b
    ensures Less(a, b) || Less(b, a)
  {
    if |a| > 0 && |b| > 0 && a[0] == b[0] {
      assert a == [a[0]] + a[1..] && b == [b[0]] + b[1..];
      LessTotal(a[1..], b[1..]);
    }
  }

  /** ASCII lower-casing of one character; every other character is kept. */
  function LowerChar(c: char): char
  {
    if 'A' <= c <= 'Z' then (c as int + 32) as char else c
  }

  /** ASCII lower-casing of a whole string, character by character. */
  function Lower(s: string): (r: string)
    ensures |r| == |s|
    ensures forall i :: 0 <= i < |s| ==> r[i] == LowerChar(s[i])
    ensures forall i :: 0 <= i < |r| ==> !('A' <= r[i] <= 'Z')
  {
    if |s| == 0 then [] else [LowerChar(s[0])] + Lower(s[1..])
  }

  /** From position `i` on, `a` and `b` agree up to ASCII case. */
  predicate EqualFoldFrom(a: string, b: string, i: nat)
    requires i <= |a| == |b|
    decreases |a| - i
  {
    i == |a| || (LowerChar(a[i]) == LowerChar(b[i]) && EqualFoldFrom(a, b, i + 1))
  }

  /** ASCII case-insensitive equality, compared character by character. */
  predicate EqualFold(a: string, b: string)
  {
    |a| == |b| && EqualFoldFrom(a, b, 0)
  }

  lemma {:induction false} EqualFoldFromCharwise(a: string, b: string, i: nat)
    requires i <= |a| == |b|
    ensures EqualFoldFrom(a, b, i) <==> forall k :: i <= k < |a| ==> LowerChar(a[k]) == LowerChar(b[k])
    decreases |a| - i
  {
    if i < |a| {
      EqualFoldFromCharwise(a, b, i + 1);
    }
  }

  /** Case-insensitive equality ignores ASCII case and nothing else. */
  lemma EqualFoldCharwise(a: string, b: string)
    ensures EqualFold(a, b) <==>
              |a| == |b| && forall k :: 0 <= k < |a| ==> LowerChar(a[k]) == LowerChar(b[k])
  {
    if |a| == |b| {
      EqualFoldFromCharwise(a, b, 0);
    }
  }

  /** Two strings are equal up to ASCII case exactly when their lower-cased
      forms are equal. */
  lemma EqualFoldIsLowerEqual(a: string, b: string)
    ensures EqualFold(a, b) <==> Lower(a) == Lower(b)
  {
    EqualFoldCharwise(a, b);
    if Lower(a) == Lower(b) {
      assert forall k :: 0 <= k < |a| ==> Lower(a)[k] == Lower(b)[k];
    }
  }

  /** Case-insensitive equality is an equivalence. */
  lemma EqualFoldSymmetric(a: string, b: string)
    ensures EqualFold(a, b) <==> EqualFold(b, a)
  {
    EqualFoldIsLowerEqual(a, b);
    EqualFoldIsLowerEqual(b, a);
  }

  lemma EqualFoldTransitive(a: string, b: string, c: string)
    requires EqualFold(a, b) && EqualFold(b, c)
    ensures EqualFold(a, c)
  {
    EqualFoldIsLowerEqual(a, b);
    EqualFoldIsLowerEqual(b, c);
    EqualFoldIsLowerEqual(a, c);
  }
}
