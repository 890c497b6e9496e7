/** String helpers with the meaning of JavaScript's `split`, `join` and `reverse`
    for a one-character separator. */
module Text {

  predicate IsDigit(c: char) {
    '0' <= c <= '9'
  }

  /** Every character is an ASCII digit (what `\d` matches in a JavaScript regular expression). */
  predicate AllDigits(s: string) {
    forall i :: 0 <= i < |s| ==> IsDigit(s[i])
  }

  /** The number a string of decimal digits denotes. */
  function DigitsValue(s: string): (n: nat)
    requires AllDigits(s)
  {
    if s == [] then 0
    else DigitsValue(s[..|s| - 1]) * 10 + ((s[|s| - 1] as int) - ('0' as int))
  }

  /** The position of the first occurrence of `c` in `s`. */
  function IndexOf(s: string, c: char): (i: nat)
    requires c in s
    ensures i < |s| && s[i] == c && c !in s[..i]
  {
    if s[0] == c then 0
    else
      var j := IndexOf(s[1..], c);
      assert s[..j + 1] == [s[0]] + s[1..][..j];
      j + 1
  }

  /** `join`: the parts in order with one separator between neighbours. */
  function Join(parts: seq<string>, sep: char): string {
    if |parts| == 0 then ""
    else if |parts| == 1 then parts[0]
    else parts[0] + [sep] + Join(parts[1..], sep)
  }

  /** `s.split(sep)`: the maximal pieces of `s` between occurrences of `sep`, in order;
      the empty string splits into one empty piece. */
  function Split(s: string, sep: char): (parts: seq<string>)
    ensures |parts| >= 1
    ensures forall p :: p in parts ==> sep !in p
    ensures Join(parts, sep) == s
    decreases |s|
  {
    if sep !in s then [s]
    else
      var i := IndexOf(s, sep);
      var rest := Split(s[i + 1..], sep);
      assert Join([s[..i]] + rest, sep) == s[..i] + [sep] + Join(rest, sep) by {
        assert ([s[..i]] + rest)[1..] == rest;
      }
      assert s == s[..i] + [sep] + s[i + 1..];
      [s[..i]] + rest
  }

  /** `a.reverse()`. */
  function Reverse<T>(a: seq<T>): (r: seq<T>)
    ensures |r| == |a|
    ensures forall k :: 0 <= k < |a| ==> r[k] == a[|a| - 1 - k]
  {
    if a == [] then [] else Reverse(a[1..]) + [a[0]]
  }

  /** A joined text starts with the first part and ends with the last, and holds a separator
      once there are two parts. */
  lemma {:induction false} JoinEnds(parts: seq<string>, sep: char)
    requires |parts| > 0
    ensures parts[0] <= Join(parts, sep)
    ensures var r, last := Join(parts, sep), parts[|parts| - 1];
            |last| <= |r| && r[|r| - |last|..] == last
    ensures |parts| >= 2 ==> sep in Join(parts, sep)
  {
    if |parts| >= 2 {
      var r := Join(parts, sep);
      var tail := Join(parts[1..], sep);
      JoinEnds(parts[1..], sep);
      assert r == parts[0] + [sep] + tail;
      assert r[|parts[0]|] == sep;
      assert parts[1..][|parts[1..]| - 1] == parts[|parts| - 1];
      assert r[|parts[0]| + 1..] == tail;
    }
  }

  /** The first occurrence of a separator is found where the prefix before it has none. */
  lemma IndexOfAt(s: string, c: char, k: nat)
    requires k < |s| && s[k] == c && c !in s[..k]
    ensures IndexOf(s, c) == k
  {
  }

  /** Splitting undoes joining pieces that do not contain the separator. */
  lemma {:induction false} SplitJoin(parts: seq<string>, sep: char)
    requires |parts| >= 1
    requires forall p :: p in parts ==> sep !in p
    ensures Split(Join(parts, sep), sep) == parts
    decreases |parts|
  {
    if |parts| > 1 {
      var rest := parts[1..];
      var tail := Join(rest, sep);
      var s := Join(parts, sep);
      assert s == parts[0] + [sep] + tail;
      assert s[|parts[0]|] == sep;
      assert s[..|parts[0]|] == parts[0];
      IndexOfAt(s, sep, |parts[0]|);
      assert s[|parts[0]| + 1..] == tail;
      assert forall p :: p in rest ==> p in parts;
      SplitJoin(rest, sep);
      assert parts == [parts[0]] + rest;
    }
  }

  /** A string of three separated fields splits into exactly those fields. */
  lemma SplitThree(a: string, b: string, c: string, sep: char)
    requires sep !in a && sep !in b && sep !in c
    ensures Split(a + [sep] + b + [sep] + c, sep) == [a, b, c]
  {
    assert [a, b, c][1..] == [b, c];
    assert [b, c][1..] == [c];
    assert Join([c], sep) == c;
    assert Join([b, c], sep) == b + [sep] + c;
    assert Join([a, b, c], sep) == a + [sep] + (b + [sep] + c);
    assert a + [sep] + (b + [sep] + c) == a + [sep] + b + [sep] + c;
    SplitJoin([a, b, c], sep);
  }

  /** A digit string contains none of the separators used by dates and times. */
  lemma DigitsHaveNoSeparator(s: string, sep: char)
    requires AllDigits(s) && !IsDigit(sep)
    ensures sep !in s
  {
  }
}
