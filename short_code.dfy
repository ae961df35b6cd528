/** Short codes: fixed-length strings over the 62-symbol alphabet. The random
    source is replaced by the indices it would have drawn, each in [0, 62). */
module ShortCode {

  const SHORT_CODE_LENGTH: nat := 6

  /** The alphabet, written as its three runs; together they spell
      "ABCDEFGHIJKLMNOPQRSTUVWXYZabcdefghijklmnopqrstuvwxyz0123456789". */
  const BASE_62: string := UPPER + LOWER + DIGITS

  const UPPER: string := "ABCDEFGHIJKLMNOPQRSTUVWXYZ"
  const LOWER: string := "abcdefghijklmnopqrstuvwxyz"
  const DIGITS: string := "0123456789"

  predicate IsAlphanumeric(c: char)
  {
    'A' <= c <= 'Z' || 'a' <= c <= 'z' || '0' <= c <= '9'
  }

  /** What every generated code looks like: six characters of [A-Za-z0-9],
      which AlphabetIsAlphanumeric shows are exactly the alphabet's symbols. */
  predicate IsShortCode(s: string)
  {
    |s| == SHORT_CODE_LENGTH && forall k :: 0 <= k < |s| ==> IsAlphanumeric(s[k])
  }

  /** Random draws: every index picks a symbol of the alphabet. */
  predicate ValidIndices(indices: seq<nat>)
  {
    forall k :: 0 <= k < |indices| ==> indices[k] < 62
  }

  /** The symbol at a position of the alphabet, computed from its three runs. */
  function Base62Char(k: nat): char
    requires k < 62
  {
    if k < 26 then ('A' as int + k) as char
    else if k < 52 then ('a' as int + (k - 26)) as char
    else ('0' as int + (k - 52)) as char
  }

  /** The position of a symbol in the alphabet (62 for any other character). */
  function Base62Index(c: char): nat
  {
    if 'A' <= c <= 'Z' then c as nat - 'A' as nat
    else if 'a' <= c <= 'z' then 26 + (c as nat - 'a' as nat)
    else if '0' <= c <= '9' then 52 + (c as nat - '0' as nat)
    else 62
  }

  /** The code spelled by a sequence of draws. */
  function CodeOf(indices: seq<nat>): (code: string)
    requires ValidIndices(indices)
    ensures |code| == |indices|
  {
    seq(|indices|, k requires 0 <= k < |indices| => Base62Char(indices[k]))
  }

  /** The draws that spell a code: the inverse of CodeOf. */
  function IndicesOf(code: string): (indices: seq<nat>)
    ensures |indices| == |code|
  {
    seq(|code|, k requires 0 <= k < |code| => Base62Index(code[k]))
  }

  /** The alphabet is the upper-case letters, the lower-case letters and the
      digits, each run in ascending order. */
  lemma AlphabetRuns()
    ensures |BASE_62| == 62
    ensures forall k :: 0 <= k < 62 ==> BASE_62[k] == Base62Char(k)
  {
    UpperRun();
    LowerRun();
    DigitRun();
    forall k | 0 <= k < 62 ensures BASE_62[k] == Base62Char(k) {
      if k < 26 {
        assert BASE_62[k] == UPPER[k];
      } else if k < 52 {
        assert BASE_62[k] == LOWER[k - 26];
      } else {
        assert BASE_62[k] == DIGITS[k - 52];
      }
    }
  }

  lemma UpperRun()
    ensures UPPER == seq(26, k requires 0 <= k < 26 => Base62Char(k))
  {
  }

  lemma LowerRun()
    ensures LOWER == seq(26, k requires 0 <= k < 26 => Base62Char(26 + k))
  {
  }

  lemma DigitRun()
    ensures DIGITS == seq(10, k requires 0 <= k < 10 => Base62Char(52 + k))
  {
  }

  /** Positions and symbols correspond one to one. */
  lemma Base62CharIndex(k: nat)
    requires k < 62
    ensures IsAlphanumeric(Base62Char(k)) && Base62Index(Base62Char(k)) == k
  {
  }

  lemma Base62IndexChar(c: char)
    requires IsAlphanumeric(c)
    ensures Base62Index(c) < 62 && Base62Char(Base62Index(c)) == c
  {
  }

  /** The alphabet's symbols are exactly the characters of [A-Za-z0-9], and
      no symbol occurs twice. */
  lemma AlphabetIsAlphanumeric()
    ensures forall c :: c in BASE_62 <==> IsAlphanumeric(c)
    ensures forall i, j :: 0 <= i < j < |BASE_62| ==> BASE_62[i] != BASE_62[j]
  {
    AlphabetRuns();
    forall c ensures c in BASE_62 <==> IsAlphanumeric(c) {
      if c in BASE_62 {
        var k :| 0 <= k < 62 && BASE_62[k] == c;
        Base62CharIndex(k);
      }
      if IsAlphanumeric(c) {
        Base62IndexChar(c);
        assert BASE_62[Base62Index(c)] == c;
      }
    }
    forall i, j | 0 <= i < j < |BASE_62| ensures BASE_62[i] != BASE_62[j] {
      Base62CharIndex(i);
      Base62CharIndex(j);
    }
  }

  /** Drawing index k picks the alphabet's k-th symbol. */
  lemma CodeOfSpellsAlphabet(indices: seq<nat>)
    requires ValidIndices(indices)
    ensures forall k :: 0 <= k < |indices| ==> CodeOf(indices)[k] == BASE_62[indices[k]]
  {
    AlphabetRuns();
  }

  /** Six draws spell a short code. */
  lemma CodeOfIsShortCode(indices: seq<nat>)
    requires ValidIndices(indices) && |indices| == SHORT_CODE_LENGTH
    ensures IsShortCode(CodeOf(indices))
  {
    forall k | 0 <= k < |indices| ensures IsAlphanumeric(CodeOf(indices)[k]) {
      Base62CharIndex(indices[k]);
    }
  }

  /** Decoding the code recovers the draws: no two draw sequences spell the
      same code, so all 62^6 codes can come out of the generator. */
  lemma DecodeCodeOf(indices: seq<nat>)
    requires ValidIndices(indices)
    ensures IndicesOf(CodeOf(indices)) == indices
  {
    forall k | 0 <= k < |indices| ensures IndicesOf(CodeOf(indices))[k] == indices[k] {
      Base62CharIndex(indices[k]);
    }
  }

  /** Conversely, every alphanumeric string is spelled by its own draws. */
  lemma CodeOfIndicesOf(code: string)
    requires forall k :: 0 <= k < |code| ==> IsAlphanumeric(code[k])
    ensures ValidIndices(IndicesOf(code))
    ensures CodeOf(IndicesOf(code)) == code
  {
    forall k | 0 <= k < |code| ensures Base62Index(code[k]) < 62 && Base62Char(Base62Index(code[k])) == code[k] {
      Base62IndexChar(code[k]);
    }
  }

  lemma CodeOfInjective(a: seq<nat>, b: seq<nat>)
    requires ValidIndices(a) && ValidIndices(b)
    requires CodeOf(a) == CodeOf(b)
    ensures a == b
  {
    DecodeCodeOf(a);
    DecodeCodeOf(b);
  }
}
