/**
 * `finalize_response` (src/remip_sample/utils.py): line endings of a final
 * answer are normalised to "\n" by two `str.replace` passes, first "\r\n",
 * then any "\r" left over.
 */
module Utils {
  import opened PyStrings

  /** Lines 41-43. */
  function FinalizeResponse(text: string): string {
    Replace(Replace(text, "\r\n", "\n"), "\r", "\n")
  }

  /** Reference: one left-to-right scan turning "\r\n" and a lone "\r" into "\n". */
  function Normalized(s: string): string
    decreases |s|
  {
    if s == [] then []
    else if s[0] == '\r' && |s| >= 2 && s[1] == '\n' then "\n" + Normalized(s[2..])
    else if s[0] == '\r' then "\n" + Normalized(s[1..])
    else [s[0]] + Normalized(s[1..])
  }

  /** Every "\r" replaced by "\n", character by character. */
  function CrToLf(s: string): (r: string)
    ensures |r| == |s|
  {
    seq(|s|, i requires 0 <= i < |s| => if s[i] == '\r' then '\n' else s[i])
  }

  /** The number of positions where "\r\n" starts. */
  function CrlfCount(s: string): nat
    decreases |s|
  {
    if |s| < 2 then 0
    else (if s[0] == '\r' && s[1] == '\n' then 1 else 0) + CrlfCount(s[1..])
  }

  lemma CrToLfAppend(a: string, b: string)
    ensures CrToLf(a + b) == CrToLf(a) + CrToLf(b)
  {
  }

  /** The second pass replaces each "\r" on its own. */
  lemma {:induction false} ReplaceCrIsCrToLf(s: string)
    ensures Replace(s, "\r", "\n") == CrToLf(s)
    decreases |s|
  {
    if |s| >= 1 {
      ReplaceCrIsCrToLf(s[1..]);
      assert s == [s[0]] + s[1..];
      CrToLfAppend([s[0]], s[1..]);
    }
  }

  /** After the first pass, the second one finishes the single scan. */
  lemma {:induction false} TwoPassesAreOneScan(s: string)
    ensures CrToLf(Replace(s, "\r\n", "\n")) == Normalized(s)
    decreases |s|
  {
    if |s| < 2 {
      if |s| == 1 {
        assert s[1..] == [];
      }
    } else if s[..2] == "\r\n" {
      TwoPassesAreOneScan(s[2..]);
      assert s[0] == '\r' && s[1] == '\n';
      CrToLfAppend("\n", Replace(s[2..], "\r\n", "\n"));
    } else {
      TwoPassesAreOneScan(s[1..]);
      CrToLfAppend([s[0]], Replace(s[1..], "\r\n", "\n"));
      if s[0] == '\r' {
        assert s[1] != '\n' by {
          assert s[..2] == [s[0], s[1]];
        }
      }
    }
  }

  /** `finalize_response` is the single scan. */
  lemma FinalizeIsNormalized(s: string)
    ensures FinalizeResponse(s) == Normalized(s)
  {
    ReplaceCrIsCrToLf(Replace(s, "\r\n", "\n"));
    TwoPassesAreOneScan(s);
  }

  /**
   * The scan leaves no "\r", keeps a text without "\r" as it is, and loses
   * one character per "\r\n".
   */
  lemma {:induction false} NormalizedFacts(s: string)
    ensures '\r' !in Normalized(s)
    ensures '\r' !in s ==> Normalized(s) == s
    ensures |Normalized(s)| == |s| - CrlfCount(s)
    decreases |s|
  {
    if s != [] {
      if s[0] == '\r' && |s| >= 2 && s[1] == '\n' {
        NormalizedFacts(s[2..]);
        assert s[1..][1..] == s[2..];
        assert CrlfCount(s[1..]) == CrlfCount(s[2..]);
      } else {
        NormalizedFacts(s[1..]);
        assert s == [s[0]] + s[1..];
        if |s| >= 2 {
          assert CrlfCount(s) == CrlfCount(s[1..]);
        }
      }
    }
  }

  /**
   * `finalize_response` leaves no carriage return, returns a text without
   * one unchanged, shortens the text by exactly the number of "\r\n" pairs,
   * and applying it twice is applying it once.
   */
  lemma FinalizeFacts(s: string)
    ensures '\r' !in FinalizeResponse(s)
    ensures '\r' !in s ==> FinalizeResponse(s) == s
    ensures |FinalizeResponse(s)| == |s| - CrlfCount(s)
    ensures FinalizeResponse(FinalizeResponse(s)) == FinalizeResponse(s)
  {
    FinalizeIsNormalized(s);
    NormalizedFacts(s);
    FinalizeIsNormalized(FinalizeResponse(s));
    NormalizedFacts(FinalizeResponse(s));
  }
}
