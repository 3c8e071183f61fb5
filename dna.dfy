/**
 * Nucleotide strings: the complement table, the reverse complement used by
 * both the C++ tool (revcomp_sequence) and the Python pipeline
 * (reverse_complement), and Python's str.strip().
 */
module Dna {

  /** Complement of one base: A<->T and C<->G in either case; every other character is kept. */
  function Complement(c: char): char
  {
    match c
    case 'A' => 'T'
    case 'T' => 'A'
    case 'C' => 'G'
    case 'G' => 'C'
    case 'a' => 't'
    case 't' => 'a'
    case 'c' => 'g'
    case 'g' => 'c'
    case _ => c
  }

  function ReverseComplement(s: string): (r: string)
    ensures |r| == |s|
  {
    if |s| == 0 then [] else [Complement(s[|s| - 1])] + ReverseComplement(s[..|s| - 1])
  }

  /** Position k of the reverse complement is the complement of position |s|-1-k. */
  lemma {:induction false} ReverseComplementAt(s: string, k: nat)
    requires k < |s|
    ensures ReverseComplement(s)[k] == Complement(s[|s| - 1 - k])
  {
    if k > 0 {
      ReverseComplementAt(s[..|s| - 1], k - 1);
    }
  }

  /** Taking the reverse complement twice gives the original string back. */
  lemma ReverseComplementInvolution(s: string)
    ensures ReverseComplement(ReverseComplement(s)) == s
  {
    var r := ReverseComplement(s);
    forall k | 0 <= k < |s|
      ensures ReverseComplement(r)[k] == s[k]
    {
      ReverseComplementAt(r, k);
      ReverseComplementAt(s, |s| - 1 - k);
    }
  }

  /** The characters Python's str.isspace() accepts, which str.strip() removes. */
  predicate IsSpace(c: char)
  {
    var n := c as int;
    (9 <= n <= 13) || (28 <= n <= 32) || n == 133 || n == 160 || n == 5760
    || (8192 <= n <= 8202) || n == 8232 || n == 8233 || n == 8239 || n == 8287 || n == 12288
  }

  function StripLeft(s: string): (r: string)
    ensures |r| <= |s| && r == s[|s| - |r|..]
    ensures |r| > 0 ==> !IsSpace(r[0])
    ensures forall i :: 0 <= i < |s| - |r| ==> IsSpace(s[i])
  {
    if |s| > 0 && IsSpace(s[0]) then StripLeft(s[1..]) else s
  }

  function StripRight(s: string): (r: string)
    ensures |r| <= |s| && r == s[..|r|]
    ensures |r| > 0 ==> !IsSpace(r[|r| - 1])
    ensures forall i :: |r| <= i < |s| ==> IsSpace(s[i])
  {
    if |s| > 0 && IsSpace(s[|s| - 1]) then StripRight(s[..|s| - 1]) else s
  }

  /** Python's str.strip(): drop leading and trailing whitespace. */
  function Strip(s: string): string
  {
    StripRight(StripLeft(s))
  }

  /**
   * Strip keeps exactly the slice between the first and last non-space
   * characters, and stripping again changes nothing.
   */
  lemma StripIsSlice(s: string)
    ensures exists i, j ::
              && 0 <= i <= j <= |s| && Strip(s) == s[i..j]
              && (forall k :: 0 <= k < i ==> IsSpace(s[k]))
              && (forall k :: j <= k < |s| ==> IsSpace(s[k]))
    ensures |Strip(s)| > 0 ==> !IsSpace(Strip(s)[0]) && !IsSpace(Strip(s)[|Strip(s)| - 1])
    ensures Strip(Strip(s)) == Strip(s)
  {
    var l := StripLeft(s);
    var i := |s| - |l|;
    var j := i + |StripRight(l)|;
    assert Strip(s) == s[i..j];
    var t := Strip(s);
    if |t| > 0 {
      assert t[0] == l[0];
    }
  }
}
