/**
 * src/Utils.hpp: the filled insertion record (its order for std::set, its
 * reverse complement and its quality ladder) and the documented contract
 * of identNT, the base comparison used by the anchor search.
 */
module Utils {
  import opened Dna

  /** bkpt_t: a breakpoint id and its orientation flag. */
  type BkptId = (string, bool)

  /** The fields operator< looks at. */
  datatype InsertionKey = InsertionKey(targetId: BkptId, sequence: string)

  // ---------------------------------------------------------------------
  // operator<
  // ---------------------------------------------------------------------

  /** std::string operator<: lexicographic by character, a proper prefix first. */
  predicate StringLess(a: string, b: string)
  {
    if |a| == 0 then |b| > 0
    else if |b| == 0 then false
    else if a[0] != b[0] then a[0] < b[0]
    else StringLess(a[1..], b[1..])
  }

  /** bool operator<: false before true. */
  predicate BoolLess(a: bool, b: bool)
  {
    !a && b
  }

  /** std::pair operator<, written the way the standard library defines it. */
  predicate BkptLess(p: BkptId, q: BkptId)
  {
    StringLess(p.0, q.0) || (!StringLess(q.0, p.0) && BoolLess(p.1, q.1))
  }

  /** filled_insertion_t::operator<. */
  predicate KeyLess(a: InsertionKey, b: InsertionKey)
  {
    if a.targetId != b.targetId then BkptLess(a.targetId, b.targetId) else StringLess(a.sequence, b.sequence)
  }

  lemma {:induction false} StringLessIrreflexive(a: string)
    ensures !StringLess(a, a)
  {
    if |a| > 0 {
      StringLessIrreflexive(a[1..]);
    }
  }

  lemma {:induction false} StringLessTransitive(a: string, b: string, c: string)
    requires StringLess(a, b) && StringLess(b, c)
    ensures StringLess(a, c)
  {
    if |a| > 0 && |b| > 0 && |c| > 0 && a[0] == b[0] && b[0] == c[0] {
      StringLessTransitive(a[1..], b[1..], c[1..]);
    }
  }

  /** Two different strings are ordered one way or the other, never both. */
  lemma {:induction false} StringLessTrichotomy(a: string, b: string)
    ensures a != b <==> StringLess(a, b) || StringLess(b, a)
    ensures !(StringLess(a, b) && StringLess(b, a))
  {
    if |a| > 0 && |b| > 0 && a[0] == b[0] {
      StringLessTrichotomy(a[1..], b[1..]);
      if a[1..] == b[1..] {
        assert a == [a[0]] + a[1..] && b == [b[0]] + b[1..];
      }
    } else if |a| == 0 && |b| == 0 {
      StringLessIrreflexive(a);
    }
  }

  /** The pair order is the lexicographic one: the id first, the flag only on equal ids. */
  lemma BkptLessLexicographic(p: BkptId, q: BkptId)
    ensures BkptLess(p, q) <==> StringLess(p.0, q.0) || (p.0 == q.0 && !p.1 && q.1)
  {
    StringLessTrichotomy(p.0, q.0);
    if p.0 == q.0 {
      StringLessIrreflexive(p.0);
    }
  }

  /**
   * operator< is a strict order: irreflexive, asymmetric and transitive;
   * two insertions are equivalent (neither before the other), and so
   * collapse into one element of a std::set, exactly when they have the
   * same target id and the same sequence.
   */
  lemma KeyLessIsStrictOrder(a: InsertionKey, b: InsertionKey, c: InsertionKey)
    ensures !KeyLess(a, a)
    ensures KeyLess(a, b) ==> !KeyLess(b, a)
    ensures KeyLess(a, b) && KeyLess(b, c) ==> KeyLess(a, c)
    ensures !KeyLess(a, b) && !KeyLess(b, a) <==> a == b
  {
    StringLessIrreflexive(a.sequence);
    BkptLessLexicographic(a.targetId, b.targetId);
    BkptLessLexicographic(b.targetId, a.targetId);
    BkptLessLexicographic(b.targetId, c.targetId);
    BkptLessLexicographic(a.targetId, c.targetId);
    StringLessTrichotomy(a.targetId.0, b.targetId.0);
    StringLessTrichotomy(a.sequence, b.sequence);
    if KeyLess(a, b) && KeyLess(b, c) {
      if a.targetId == b.targetId && b.targetId == c.targetId {
        StringLessTransitive(a.sequence, b.sequence, c.sequence);
      } else {
        if StringLess(a.targetId.0, b.targetId.0) && StringLess(b.targetId.0, c.targetId.0) {
          StringLessTransitive(a.targetId.0, b.targetId.0, c.targetId.0);
        }
        StringLessTrichotomy(a.targetId.0, c.targetId.0);
        if a.targetId == c.targetId {
          // a < b < a on the ids is impossible
          StringLessTrichotomy(b.targetId.0, c.targetId.0);
        }
      }
    }
  }

  // ---------------------------------------------------------------------
  // compute_qual
  // ---------------------------------------------------------------------

  /** The quality ladder: each later test overrides every earlier one. */
  function Quality(isAnchorRepeated: bool, solutionCount: int, nbErrorsInAnchor: int): (q: int)
    ensures q in {50, 25, 15, 10, 5}
  {
    var q0 := 50;
    var q1 := if isAnchorRepeated then 25 else q0;
    var q2 := if solutionCount > 1 then 15 else q1;
    var q3 := if nbErrorsInAnchor == 1 then 10 else q2;
    if nbErrorsInAnchor == 2 then 5 else q3
  }

  /** Which quality each combination of inputs gets, and which test takes precedence. */
  lemma QualityLadder(rep: bool, count: int, errors: int)
    ensures Quality(rep, count, errors) == 5 <==> errors == 2
    ensures Quality(rep, count, errors) == 10 <==> errors == 1
    ensures Quality(rep, count, errors) == 15 <==> errors != 1 && errors != 2 && count > 1
    ensures Quality(rep, count, errors) == 25 <==> errors != 1 && errors != 2 && count <= 1 && rep
    ensures Quality(rep, count, errors) == 50 <==> errors != 1 && errors != 2 && count <= 1 && !rep
  {
  }

  // ---------------------------------------------------------------------
  // identNT
  // ---------------------------------------------------------------------

  function ToUpper(c: char): char
  {
    if 'a' <= c <= 'z' then (c as int - 32) as char else c
  }

  predicate IsN(c: char)
  {
    ToUpper(c) == 'N'
  }

  /** identNT: 1 when the two bases agree up to case and neither is N, else 0. */
  function IdentNT(a: char, b: char): (r: int)
  {
    if IsN(a) || IsN(b) then 0 else if ToUpper(a) == ToUpper(b) then 1 else 0
  }

  /**
   * identNT returns 0 or 1; it is symmetric, ignores case, returns 0 as soon
   * as either base is N (N against N included), and otherwise agrees with
   * case-insensitive equality.
   */
  lemma IdentNTContract(a: char, b: char)
    ensures IdentNT(a, b) == 0 || IdentNT(a, b) == 1
    ensures IdentNT(a, b) == IdentNT(b, a)
    ensures IdentNT(a, b) == IdentNT(ToUpper(a), ToUpper(b))
    ensures IsN(a) || IsN(b) ==> IdentNT(a, b) == 0
    ensures !IsN(a) && !IsN(b) ==> (IdentNT(a, b) == 1 <==> ToUpper(a) == ToUpper(b))
    ensures IdentNT('N', 'N') == 0 && IdentNT('n', 'N') == 0
  {
  }

  // ---------------------------------------------------------------------
  // filled_insertion_t
  // ---------------------------------------------------------------------

  /**
   * filled_insertion_t without its two float coverage fields.
   * solutionCountSet records whether a caller has assigned solution_count,
   * which neither constructor initialises.
   */
  class FilledInsertion {
    var sequence: string
    var nbErrorsInAnchor: int
    var targetIdAnchor: BkptId
    var qual: int
    var solutionCount: int
    var solutionRank: int
    ghost var solutionCountSet: bool

    constructor WithTarget(insert: string, nbErrors: int, targetId: BkptId)
      ensures sequence == insert && nbErrorsInAnchor == nbErrors && targetIdAnchor == targetId
      ensures !solutionCountSet
    {
      sequence := insert;
      nbErrorsInAnchor := nbErrors;
      targetIdAnchor := targetId;
      solutionCountSet := false;
    }

    /** Without a target id the pair member is value-initialised: an empty string and false. */
    constructor (insert: string, nbErrors: int)
      ensures sequence == insert && nbErrorsInAnchor == nbErrors && targetIdAnchor == ("", false)
      ensures !solutionCountSet
    {
      sequence := insert;
      nbErrorsInAnchor := nbErrors;
      targetIdAnchor := ("", false);
      solutionCountSet := false;
    }

    function Key(): InsertionKey
      reads this
    {
      InsertionKey(targetIdAnchor, sequence)
    }

    /** operator< on two insertions. */
    predicate Less(other: FilledInsertion)
      reads this, other
    {
      KeyLess(Key(), other.Key())
    }

    /** A caller's assignment to the public member solution_count. */
    method SetSolutionCount(n: int)
      modifies this`solutionCount, this`solutionCountSet
      ensures solutionCount == n && solutionCountSet
    {
      solutionCount := n;
      solutionCountSet := true;
    }

    /** reverse(): the sequence becomes its reverse complement; nothing else changes. */
    method Reverse()
      modifies this`sequence
      ensures sequence == ReverseComplement(old(sequence))
    {
      var reversed := ReverseComplement(sequence);
      sequence := reversed;
    }

    /** compute_qual writes qual, and only qual. */
    method ComputeQual(isAnchorRepeated: bool)
      requires solutionCountSet
      modifies this`qual
      ensures qual == Quality(isAnchorRepeated, solutionCount, nbErrorsInAnchor)
    {
      var quality := 50;
      if isAnchorRepeated {
        quality := 25;
      }
      if solutionCount > 1 {
        quality := 15;
      }
      if nbErrorsInAnchor == 1 {
        quality := 10;
      }
      if nbErrorsInAnchor == 2 {
        quality := 5;
      }
      qual := quality;
    }
  }

  /** reverse() twice restores the sequence. */
  method ReverseTwice(f: FilledInsertion)
    modifies f`sequence
    ensures f.sequence == old(f.sequence)
  {
    f.Reverse();
    f.Reverse();
    ReverseComplementInvolution(old(f.sequence));
  }
}
