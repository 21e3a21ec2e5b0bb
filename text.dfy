/**
 * Models of the two Python string built-ins the bot relies on:
 * `sep.join(parts)` and `s.rfind(c)`.
 */
module Text {

  /** Python's `sep.join(parts)`: the parts with `sep` between neighbours. */
  function JoinWith(sep: string, parts: seq<string>): string
    decreases |parts|
  {
    if |parts| == 0 then ""
    else if |parts| == 1 then parts[0]
    else parts[0] + sep + JoinWith(sep, parts[1..])
  }

  /** Every part preceded by `sep`, concatenated: the tail of a join. */
  function Prefixed(sep: string, parts: seq<string>): string
    decreases |parts|
  {
    if parts == [] then "" else sep + parts[0] + Prefixed(sep, parts[1..])
  }

  /** A join whose first part is `head` is `head` followed by every other part, each after a separator. */
  lemma {:induction false} JoinWithHead(sep: string, head: string, rest: seq<string>)
    ensures JoinWith(sep, [head] + rest) == head + Prefixed(sep, rest)
    decreases |rest|
  {
    if rest != [] {
      assert ([head] + rest)[1..] == rest;
      assert rest == [rest[0]] + rest[1..];
      JoinWithHead(sep, rest[0], rest[1..]);
    }
  }

  /** With a non-empty separator, a join is empty exactly when there is no part or one empty part. */
  lemma {:induction false} JoinWithEmpty(sep: string, parts: seq<string>)
    requires sep != ""
    ensures JoinWith(sep, parts) == "" <==> (|parts| == 0 || (|parts| == 1 && parts[0] == ""))
  {
    if |parts| >= 2 {
      assert |JoinWith(sep, parts)| >= |sep|;
    }
  }

  /**
   * Python's `s.rfind(c)`: the index of the last occurrence of `c` in `s`,
   * or -1 when `c` does not occur.
   */
  function LastIndexOf(s: string, c: char): (r: int)
    ensures -1 <= r < |s|
    ensures r == -1 <==> c !in s
    ensures 0 <= r ==> s[r] == c && c !in s[r + 1..]
    decreases |s|
  {
    if s == [] then -1
    else if s[|s| - 1] == c then |s| - 1
    else
      var r := LastIndexOf(s[..|s| - 1], c);
      assert s == s[..|s| - 1] + [s[|s| - 1]];
      r
  }
}
