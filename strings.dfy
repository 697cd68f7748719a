/** String helpers the page script relies on, over `seq<char>`. */
module Strings {

  /** The longest prefix of `s` free of `c`: element 0 of JavaScript's `s.split(c)`. */
  function TakeUntil(s: string, c: char): (r: string)
    ensures r <= s
    ensures c !in r
    ensures |r| < |s| ==> s[|r|] == c
  {
    if s == [] || s[0] == c then [] else [s[0]] + TakeUntil(s[1..], c)
  }

  /** The three properties of TakeUntil determine it: no other prefix has them. */
  lemma TakeUntilUnique(s: string, c: char, p: string)
    requires p <= s && c !in p
    requires |p| < |s| ==> s[|p|] == c
    ensures p == TakeUntil(s, c)
  {
  }

  /** Splitting `x + [c] + y` at the first `c` gives back `x` when `x` holds no `c`. */
  lemma {:induction false} TakeUntilStopsAtSeparator(x: string, c: char, y: string)
    requires c !in x
    ensures TakeUntil(x + [c] + y, c) == x
  {
    if x != [] {
      assert (x + [c] + y)[1..] == x[1..] + [c] + y;
      TakeUntilStopsAtSeparator(x[1..], c, y);
    }
  }

  /** ASCII upper-casing of one character; every other character is left as it is. */
  function UpperChar(ch: char): (up: char)
    ensures !('a' <= up <= 'z')
    ensures up == ch || ('a' <= ch <= 'z' && up as int == ch as int - 32)
  {
    if 'a' <= ch <= 'z' then (ch as int - 'a' as int + 'A' as int) as char else ch
  }

  /** Upper-cases `s` character by character (`toUpperCase` restricted to ASCII letters). */
  function ToUpper(s: string): (r: string)
    ensures |r| == |s|
    ensures forall i {:trigger r[i]} :: 0 <= i < |s| ==> r[i] == UpperChar(s[i])
    ensures forall i :: 0 <= i < |r| ==> !('a' <= r[i] <= 'z')
  {
    if s == [] then [] else [UpperChar(s[0])] + ToUpper(s[1..])
  }

  /** `s.slice(0, n)`: the first `n` characters, or all of `s` when it is shorter. */
  function Slice(s: string, n: nat): (r: string)
    ensures r <= s
    ensures |r| == if |s| < n then |s| else n
  {
    if |s| <= n then s else s[..n]
  }
}
