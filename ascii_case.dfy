/** ASCII case-insensitive comparison, as `OsStr::eq_ignore_ascii_case`
    (src/main.rs:82) performs it. */
module AsciiCase {

  /** `c` with `A`..`Z` mapped to `a`..`z`; every other character unchanged. */
  function AsciiLower(c: char): (l: char)
    ensures 'A' <= c <= 'Z' ==> 'a' <= l <= 'z' && l as int - c as int == 32
    ensures !('A' <= c <= 'Z') ==> l == c
  {
    if 'A' <= c <= 'Z' then (c as int + 32) as char else c
  }

  /** Same length, and the same characters position by position once ASCII
      letters are folded to lower case. */
  predicate EqIgnoreAsciiCase(a: string, b: string) {
    |a| == |b| && forall i :: 0 <= i < |a| ==> AsciiLower(a[i]) == AsciiLower(b[i])
  }

  /** Reference definition: the whole string folded to lower case. */
  function LowerAll(s: string): (r: string)
    ensures |r| == |s|
    ensures forall i :: 0 <= i < |s| ==> r[i] == AsciiLower(s[i])
    decreases |s|
  {
    if s == [] then [] else [AsciiLower(s[0])] + LowerAll(s[1..])
  }

  /** Comparing ignoring ASCII case is comparing the lower-cased strings. */
  lemma EqIgnoreAsciiCaseIsLowerEq(a: string, b: string)
    ensures EqIgnoreAsciiCase(a, b) <==> LowerAll(a) == LowerAll(b)
  {
    if LowerAll(a) == LowerAll(b) {
      assert |a| == |b|;
      forall i | 0 <= i < |a|
        ensures AsciiLower(a[i]) == AsciiLower(b[i])
      {
        assert LowerAll(a)[i] == LowerAll(b)[i];
      }
    }
  }

  /** The relation is an equivalence: reflexive, symmetric and transitive. */
  lemma EqIgnoreAsciiCaseEquivalence(a: string, b: string, c: string)
    ensures EqIgnoreAsciiCase(a, a)
    ensures EqIgnoreAsciiCase(a, b) ==> EqIgnoreAsciiCase(b, a)
    ensures EqIgnoreAsciiCase(a, b) && EqIgnoreAsciiCase(b, c) ==> EqIgnoreAsciiCase(a, c)
  {
  }

  /** The extension test of the scan. */
  predicate IsExe(ext: string) {
    EqIgnoreAsciiCase(ext, "exe")
  }

  /** An extension passes exactly when it is three characters long and spells
      `exe` with each letter in either case. */
  lemma IsExeSpelledOut(ext: string)
    ensures IsExe(ext) <==>
      |ext| == 3 && (ext[0] == 'e' || ext[0] == 'E') && (ext[1] == 'x' || ext[1] == 'X')
      && (ext[2] == 'e' || ext[2] == 'E')
  {
    if |ext| == 3 {
      LowerIsLetter(ext[0], 'e');
      LowerIsLetter(ext[1], 'x');
      LowerIsLetter(ext[2], 'e');
    }
  }

  /** Only a lower-case letter and its upper-case form fold to that letter. */
  lemma LowerIsLetter(c: char, l: char)
    requires 'a' <= l <= 'z'
    ensures AsciiLower(c) == l <==> c == l || c as int == l as int - 32
  {
  }

  /** `exe`, `EXE` and `eXe` pass; `ex`, `exes` and `exe ` (with a trailing
      space) do not. */
  lemma IsExeExamples()
    ensures IsExe("exe") && IsExe("EXE") && IsExe("eXe")
    ensures !IsExe("ex") && !IsExe("exes") && !IsExe("exe ")
  {
    IsExeSpelledOut("exe");
    IsExeSpelledOut("EXE");
    IsExeSpelledOut("eXe");
  }
}
