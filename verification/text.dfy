/**
 Text as a sequence of characters: concatenation of pieces, and the split
 into lines that a text file's `readlines()` performs (each line keeps its
 terminating newline; only the last line may lack one).
 */
module Text {

  const Newline := '\n'

  /** The pieces of `xss` written one after another. */
  function Concat<T>(xss: seq<seq<T>>): (r: seq<T>)
  {
    if |xss| == 0 then [] else xss[0] + Concat(xss[1..])
  }

  /** Concatenation distributes over appending piece lists. */
  lemma {:induction false} ConcatAppend<T>(a: seq<seq<T>>, b: seq<seq<T>>)
    ensures Concat(a + b) == Concat(a) + Concat(b)
  {
    if |a| == 0 {
      assert a + b == b;
    } else {
      assert (a + b)[1..] == a[1..] + b;
      ConcatAppend(a[1..], b);
    }
  }

  /** Writing pieces one at a time, the text after piece `j` is the
      text after the first `j` pieces followed by piece `j`. */
  lemma ConcatSnoc<T>(xss: seq<seq<T>>, j: nat)
    requires j < |xss|
    ensures Concat(xss[..j + 1]) == Concat(xss[..j]) + xss[j]
  {
    assert xss[..j + 1] == xss[..j] + [xss[j]];
    ConcatAppend(xss[..j], [xss[j]]);
    assert [xss[j]][1..] == [];
  }

  /** A line as `readlines()` yields it: non-empty, and a newline can only
      be its last character. */
  predicate IsLine(l: string)
  {
    |l| > 0 && forall j :: 0 <= j < |l| - 1 ==> l[j] != Newline
  }

  /** Length of the first line of a non-empty `s`: up to and including its
      first newline, or all of `s` when there is none. */
  function LineEnd(s: string): (k: nat)
    requires |s| > 0
    ensures 0 < k <= |s|
    ensures IsLine(s[..k])
    ensures k < |s| ==> s[k - 1] == Newline
  {
    if s[0] == Newline || |s| == 1 then 1
    else 1 + LineEnd(s[1..])
  }

  /** A first line that ends in a newline ends at the first newline. */
  lemma {:induction false} LineEndAtNewline(s: string, k: nat)
    requires 0 < k <= |s| && s[k - 1] == Newline
    requires forall j :: 0 <= j < k - 1 ==> s[j] != Newline
    ensures LineEnd(s) == k
  {
    if k > 1 {
      LineEndAtNewline(s[1..], k - 1);
    }
  }

  /** The lines of `s`, as `readlines()` returns them. Written back one
      after another they give `s` again, every one of them is a line, and
      every one but the last ends with a newline. */
  function Lines(s: string): (ls: seq<string>)
    ensures Concat(ls) == s
    ensures forall i :: 0 <= i < |ls| ==> IsLine(ls[i])
    ensures forall i :: 0 <= i < |ls| - 1 ==> |ls[i]| > 0 && ls[i][|ls[i]| - 1] == Newline
    decreases |s|
  {
    if |s| == 0 then []
    else
      var k := LineEnd(s);
      var rest := Lines(s[k..]);
      assert ([s[..k]] + rest)[1..] == rest;
      assert s[..k] + s[k..] == s;
      [s[..k]] + rest
  }
}
