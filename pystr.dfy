/**
  The few Python `str` operations the parser relies on: `count` of one
  character, `replace(c, '')`, and `split()` with no separator, together with
  the character classes they and the UniRef pattern use (ASCII only).
 */
module PyStr {

  /** Whitespace as Python's `str.split()` sees it, restricted to ASCII:
      space, tab, line feed, vertical tab, form feed, carriage return and the
      four separators 0x1C..0x1F. */
  predicate IsSpace(c: char) {
    c == ' ' || (9 <= c as int <= 13) || (28 <= c as int <= 31)
  }

  /** The character classes a scanner runs over. */
  datatype CharClass = Digit | UpperOrDigit | Space | NonSpace {
    predicate Has(c: char) {
      match this
      case Digit => '0' <= c <= '9'
      case UpperOrDigit => ('A' <= c <= 'Z') || ('0' <= c <= '9')
      case Space => IsSpace(c)
      case NonSpace => !IsSpace(c)
    }
  }

  ghost predicate AllIn(s: string, cls: CharClass) {
    forall k :: 0 <= k < |s| ==> cls.Has(s[k])
  }

  /** The end of the maximal run of `cls` characters that starts at `j`. */
  function RunEnd(s: string, j: nat, cls: CharClass): (k: nat)
    requires j <= |s|
    ensures j <= k <= |s|
    ensures forall m :: j <= m < k ==> cls.Has(s[m])
    ensures k == |s| || !cls.Has(s[k])
    decreases |s| - j
  {
    if j < |s| && cls.Has(s[j]) then RunEnd(s, j + 1, cls) else j
  }

  /** `s.count(c)` for a single character `c`. */
  function Count(s: string, c: char): (n: nat)
    ensures n <= |s|
  {
    if s == [] then 0 else (if s[0] == c then 1 else 0) + Count(s[1..], c)
  }

  /** `s.replace(c, '')`: every occurrence of `c` dropped. */
  function Remove(s: string, c: char): (r: string)
    ensures c !in r
    ensures |r| == |s| - Count(s, c)
  {
    if s == [] then [] else (if s[0] == c then [] else [s[0]]) + Remove(s[1..], c)
  }

  /** `s.split()`: the maximal runs of non-whitespace characters, in order. */
  function Split(s: string): (tokens: seq<string>)
    ensures forall t :: t in tokens ==> t != [] && AllIn(t, NonSpace)
    ensures tokens == [] <==> AllIn(s, Space)
    decreases |s|
  {
    var j := RunEnd(s, 0, Space);
    if j == |s| then []
    else
      var k := RunEnd(s, j, NonSpace);
      [s[j..k]] + Split(s[k..])
  }

  /** The first token of `s` is `t`, found at `j`: only whitespace before it,
      and whitespace or the end of `s` right after it. */
  ghost predicate FirstTokenAt(s: string, t: string, j: nat) {
    t != [] && j + |t| <= |s| && s[j..j + |t|] == t
    && AllIn(s[..j], Space) && AllIn(t, NonSpace)
    && (j + |t| == |s| || IsSpace(s[j + |t|]))
  }

  /** `Count` is the multiplicity of `c` in `s`. */
  lemma {:induction false} CountIsMultiplicity(s: string, c: char)
    ensures Count(s, c) == multiset(s)[c]
  {
    if s != [] {
      assert s == [s[0]] + s[1..];
      assert multiset(s) == multiset([s[0]]) + multiset(s[1..]);
      CountIsMultiplicity(s[1..], c);
    }
  }

  /** Removing distributes over concatenation, so the characters that are
      kept stay in their original order. */
  lemma {:induction false} RemoveConcat(a: string, b: string, c: char)
    ensures Remove(a + b, c) == Remove(a, c) + Remove(b, c)
  {
    if a == [] {
      assert a + b == b;
    } else {
      assert (a + b)[0] == a[0];
      assert (a + b)[1..] == a[1..] + b;
      RemoveConcat(a[1..], b, c);
    }
  }

  /** Removing keeps every other character with its multiplicity. */
  lemma {:induction false} RemoveMultiset(s: string, c: char)
    ensures multiset(Remove(s, c)) == multiset(s)[c := 0]
  {
    if s != [] {
      assert s == [s[0]] + s[1..];
      assert multiset(s) == multiset([s[0]]) + multiset(s[1..]);
      RemoveMultiset(s[1..], c);
      var head: string := if s[0] == c then [] else [s[0]];
      assert Remove(s, c) == head + Remove(s[1..], c);
      assert multiset(Remove(s, c)) == multiset(head) + multiset(Remove(s[1..], c));
    }
  }

  /** Removing changes nothing exactly when `c` does not occur. */
  lemma {:induction false} RemoveUnchanged(s: string, c: char)
    ensures Remove(s, c) == s <==> c !in s
  {
    if s != [] && c !in s {
      assert c !in s[1..];
      RemoveUnchanged(s[1..], c);
      assert s == [s[0]] + s[1..];
    }
  }

  /** The first token `split()` returns is the first maximal non-whitespace
      run of `s`, preceded only by whitespace. */
  lemma SplitFirstToken(s: string)
    requires Split(s) != []
    ensures FirstTokenAt(s, Split(s)[0], RunEnd(s, 0, Space))
  {
    var j := RunEnd(s, 0, Space);
    var k := RunEnd(s, j, NonSpace);
    assert Split(s)[0] == s[j..k];
    assert forall m :: 0 <= m < j ==> s[..j][m] == s[m];
    assert forall m :: 0 <= m < k - j ==> s[j..k][m] == s[j + m];
  }
}
