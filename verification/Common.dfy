/** Small facts about sequences, and the option type, shared by the other modules. */
module Common {
  datatype Option<+T> = None | Some(value: T)

  lemma Associates<T>(a: seq<T>, b: seq<T>, c: seq<T>)
    ensures (a + b) + c == a + (b + c)
  {}

  lemma CancelsLeft<T>(a: seq<T>, b: seq<T>, c: seq<T>)
    requires a + b == a + c
    ensures b == c
  {
    assert b == (a + b)[|a|..] && c == (a + c)[|a|..];
  }

  lemma LastOfConcat<T>(a: seq<T>, b: seq<T>)
    requires b != []
    ensures (a + b)[..|a + b| - 1] == a + b[..|b| - 1] && (a + b)[|a + b| - 1] == b[|b| - 1]
  {}
}

/** The characters of the C locale that the library tells apart, written out. */
module Alphabets {
  const LOWER_CASE := "abcdefghijklmnopqrstuvwxyz"
  const UPPER_CASE := "ABCDEFGHIJKLMNOPQRSTUVWXYZ"
  const DIGITS := "0123456789"

  lemma LowerAt(i: nat)
    requires i < 26
    ensures |LOWER_CASE| == 26 && LOWER_CASE[i] == 'a' + i as char
  {
    assert i < 13 ==> i in {0, 1, 2, 3, 4, 5, 6, 7, 8, 9, 10, 11, 12};
  }

  lemma UpperAt(i: nat)
    requires i < 26
    ensures |UPPER_CASE| == 26 && UPPER_CASE[i] == 'A' + i as char
  {
    assert i < 13 ==> i in {0, 1, 2, 3, 4, 5, 6, 7, 8, 9, 10, 11, 12};
  }

  lemma DigitAt(i: nat)
    requires i < 10
    ensures |DIGITS| == 10 && DIGITS[i] == '0' + i as char
  {}

  lemma LowerExactly(c: char)
    ensures c in LOWER_CASE <==> 'a' <= c <= 'z'
  {
    if 'a' <= c <= 'z' {
      LowerAt(c as int - 'a' as int);
    }
    forall i | 0 <= i < 26
      ensures |LOWER_CASE| == 26 && 'a' <= LOWER_CASE[i] <= 'z'
    {
      LowerAt(i);
    }
  }

  lemma UpperExactly(c: char)
    ensures c in UPPER_CASE <==> 'A' <= c <= 'Z'
  {
    if 'A' <= c <= 'Z' {
      UpperAt(c as int - 'A' as int);
    }
    forall i | 0 <= i < 26
      ensures |UPPER_CASE| == 26 && 'A' <= UPPER_CASE[i] <= 'Z'
    {
      UpperAt(i);
    }
  }

  lemma DigitExactly(c: char)
    ensures c in DIGITS <==> '0' <= c <= '9'
  {
    if '0' <= c <= '9' {
      DigitAt(c as int - '0' as int);
    }
    forall i | 0 <= i < 10
      ensures |DIGITS| == 10 && '0' <= DIGITS[i] <= '9'
    {
      DigitAt(i);
    }
  }
}
