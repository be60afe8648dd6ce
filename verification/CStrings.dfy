/** C strings and their comparison (student-distrib/lib.c). */
module CStrings {
  import opened Common

  /** The byte a C program reads at index `i`; past the modelled memory lies a terminator. */
  function At(s: seq<byte>, i: nat): byte {
    if i < |s| then s[i] else NUL
  }

  /** The string stored at `s`: its bytes up to the first NUL, and at most `n` of them. */
  function TextOf(s: seq<byte>, n: nat): (t: seq<byte>)
    ensures |t| <= n && t <= s && IsText(t)
    ensures |t| < n ==> At(s, |t|) == NUL
  {
    if n == 0 || s == [] || s[0] == NUL then [] else [s[0]] + TextOf(s[1..], n - 1)
  }

  /** Padding a text with NULs does not change it. */
  lemma {:induction false} TextOfPadded(t: seq<byte>, pad: seq<byte>, n: nat)
    requires IsText(t) && |t| <= n && (pad != [] ==> pad[0] == NUL)
    ensures TextOf(t + pad, n) == t
  {
    if t == [] {
      assert t + pad == pad;
    } else {
      assert (t + pad)[1..] == t[1..] + pad;
      TextOfPadded(t[1..], pad, n - 1);
    }
  }

  /** The first bytes at `s` are a given text exactly when `s` starts with it. */
  lemma TextOfStart(s: seq<byte>, t: seq<byte>)
    requires IsText(t)
    ensures TextOf(s, |t|) == t <==> t <= s
  {
    assert forall i :: 0 <= i < |t| ==> t[i] in t;
  }

  /** One more byte of a comparison: either it decides, or it shortens both strings alike. */
  lemma CompareStep(s1: seq<byte>, s2: seq<byte>, n: nat)
    requires n > 0
    ensures At(s1, 0) != At(s2, 0) ==> TextOf(s1, n) != TextOf(s2, n)
    ensures At(s1, 0) == At(s2, 0) == NUL ==> TextOf(s1, n) == TextOf(s2, n)
    ensures At(s1, 0) == At(s2, 0) != NUL ==>
      (TextOf(s1, n) == TextOf(s2, n) <==> TextOf(s1[1..], n - 1) == TextOf(s2[1..], n - 1))
  {
    var t1, t2 := TextOf(s1, n), TextOf(s2, n);
    if At(s1, 0) == At(s2, 0) != NUL {
      assert t1[1..] == TextOf(s1[1..], n - 1) && t2[1..] == TextOf(s2[1..], n - 1);
      assert t1 == [s1[0]] + t1[1..] && t2 == [s2[0]] + t2[1..];
    }
  }

  /** The comparison from index `i` on, read byte by byte. */
  predicate AgreeFrom(s1: seq<byte>, s2: seq<byte>, n: nat, i: nat)
    decreases n - i
  {
    i < n ==> At(s1, i) == At(s2, i) && (At(s1, i) == NUL || AgreeFrom(s1, s2, n, i + 1))
  }

  lemma {:induction false} AgreeIffSameText(s1: seq<byte>, s2: seq<byte>, n: nat, i: nat)
    requires i <= n && i <= |s1| && i <= |s2|
    ensures AgreeFrom(s1, s2, n, i) <==> TextOf(s1[i..], n - i) == TextOf(s2[i..], n - i)
    decreases n - i
  {
    if i < n {
      CompareStep(s1[i..], s2[i..], n - i);
      if At(s1, i) == At(s2, i) != NUL {
        assert s1[i..][1..] == s1[i + 1..] && s2[i..][1..] == s2[i + 1..];
        AgreeIffSameText(s1, s2, n, i + 1);
      }
    }
  }

  /** strncmp: zero exactly when the two strings agree within the first `n` bytes. */
  method Strncmp(s1: seq<byte>, s2: seq<byte>, n: nat) returns (r: int)
    ensures r == 0 <==> TextOf(s1, n) == TextOf(s2, n)
  {
    AgreeIffSameText(s1, s2, n, 0);
    assert s1[0..] == s1 && s2[0..] == s2;
    var i := 0;
    while i < n
      invariant 0 <= i <= n
      invariant AgreeFrom(s1, s2, n, 0) <==> AgreeFrom(s1, s2, n, i)
    {
      if At(s1, i) != At(s2, i) || At(s1, i) == NUL {
        return At(s1, i) - At(s2, i);
      }
      i := i + 1;
    }
    return 0;
  }
}
