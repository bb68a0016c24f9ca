/** Strings as sequences of characters: searching, splitting and decimal numbers.
    Byte offsets of the source always fall on character boundaries, so a sequence of
    characters loses nothing. */
module Text {
  import opened Wrappers

  predicate OccursAt(part: string, s: string, i: int) {
    0 <= i <= |s| && part <= s[i..]
  }

  /** `str::find`: index of the leftmost occurrence of `part` in `s`. */
  function Find(s: string, part: string): (r: Option<nat>)
    ensures r.Some? ==> r.value + |part| <= |s| && OccursAt(part, s, r.value)
    ensures forall i {:trigger OccursAt(part, s, i)} :: OccursAt(part, s, i) ==> r.Some? && r.value <= i
  {
    if part <= s then Some(0)
    else if s == "" then None
    else
      assert forall i {:trigger OccursAt(part, s, i)} :: OccursAt(part, s, i) ==>
        0 < i && s[i..] == s[1..][i - 1..] && OccursAt(part, s[1..], i - 1);
      match Find(s[1..], part)
      case None => None
      case Some(i) =>
        assert s[i + 1..] == s[1..][i..];
        Some(i + 1)
  }

  predicate Contains(s: string, part: string) {
    Find(s, part).Some?
  }

  /** The longest prefix of `s` without any character of `stops`. */
  function Until(s: string, stops: set<char>): (n: nat)
    ensures n <= |s|
    ensures forall i :: 0 <= i < n ==> s[i] !in stops
    ensures n < |s| ==> s[n] in stops
  {
    if s == "" || s[0] in stops then 0 else 1 + Until(s[1..], stops)
  }

  /** The stretch up to the first stop is found whatever follows that stop. */
  lemma {:induction false} UntilAt(s: string, rest: string, stops: set<char>)
    requires forall c :: c in s ==> c !in stops
    requires rest == "" || rest[0] in stops
    ensures Until(s + rest, stops) == |s|
  {
    assert forall i :: 0 <= i < |s| ==> (s + rest)[i] in s;
    assert rest != "" ==> (s + rest)[|s|] in stops;
  }

  /** `str::split` on one character: the pieces between the separators, empty ones included. */
  function Split(s: string, sep: char): (parts: seq<string>)
    ensures |parts| > 0
  {
    var n := Until(s, {sep});
    if n == |s| then [s] else [s[..n]] + Split(s[n + 1..], sep)
  }

  function NonEmpty(parts: seq<string>): (kept: seq<string>)
    ensures forall k :: 0 <= k < |kept| ==> kept[k] != ""
  {
    if parts == [] then []
    else if parts[0] == "" then NonEmpty(parts[1..])
    else [parts[0]] + NonEmpty(parts[1..])
  }

  function Digit(d: nat): char
    requires d < 10
  {
    ('0' as int + d) as char
  }

  /** Decimal rendering of a number. */
  function Dec(n: nat): (s: string)
    ensures s != "" && forall c :: c in s ==> '0' <= c <= '9'
  {
    if n < 10 then [Digit(n)] else Dec(n / 10) + [Digit(n % 10)]
  }

  function Undec(s: string): int {
    if s == "" then 0 else 10 * Undec(s[..|s| - 1]) + (s[|s| - 1] as int - '0' as int)
  }

  /** The rendering reads back, and has no leading zero. */
  lemma {:induction false} DecRoundTrip(n: nat)
    ensures Undec(Dec(n)) == n
    ensures |Dec(n)| > 1 ==> Dec(n)[0] != '0'
  {
    if n < 10 {
      assert Undec(Dec(n)) == 10 * Undec("") + n;
    } else {
      var s := Dec(n);
      assert s[..|s| - 1] == Dec(n / 10);
      DecRoundTrip(n / 10);
      assert s[0] == Dec(n / 10)[0];
      assert |Dec(n / 10)| == 1 ==> Dec(n / 10) == [Digit(n / 10)];
    }
  }

  /** `str::to_ascii_lowercase`. */
  function AsciiLower(s: string): (r: string)
    ensures |r| == |s|
    ensures forall i :: 0 <= i < |s| ==>
              r[i] == if 'A' <= s[i] <= 'Z' then (s[i] as int + 32) as char else s[i]
  {
    if s == "" then ""
    else [if 'A' <= s[0] <= 'Z' then (s[0] as int + 32) as char else s[0]] + AsciiLower(s[1..])
  }
}
