/** What a list of masks does to one string, and when doing it twice changes nothing more. */
module TextEdits {
  import opened Wrappers
  import opened Text
  import opened Masking

  /** The masks that change a string without a digest. */
  datatype Edit = Erase | Cut(n: nat) | Mail

  function Do(e: Edit, s: string): string {
    match e
    case Erase => MARKER
    case Cut(n) => Take(s, n)
    case Mail => MaskEmail(s)
  }

  function Run(edits: seq<Edit>, s: string): string {
    if edits == [] then s else Run(edits[1..], Do(edits[0], s))
  }

  ghost predicate Idempotent(edits: seq<Edit>) {
    forall s :: Run(edits, Run(edits, s)) == Run(edits, s)
  }

  // ---------- the condition ----------

  /** Some edit forgets what was there. */
  predicate Resets(edits: seq<Edit>) {
    exists k :: 0 <= k < |edits| && (edits[k].Erase? || edits[k] == Cut(0))
  }

  /** A truncation that cannot keep the `@` of a masked address, and an e-mail mask after it. */
  predicate ShortThenMail(edits: seq<Edit>) {
    exists j, k :: 0 <= j < k < |edits| && edits[j].Cut? && edits[j].n < 5 && edits[k].Mail?
  }

  /** The least truncation, `None` if there is none. */
  function Least(edits: seq<Edit>): Option<nat> {
    if edits == [] then None
    else if edits[0].Cut? then Some(Lesser(edits[0].n, Least(edits[1..])))
    else Least(edits[1..])
  }

  function Lesser(n: nat, limit: Option<nat>): nat {
    if limit.Some? && limit.value < n then limit.value else n
  }

  predicate AtMost(a: Option<nat>, b: Option<nat>) {
    b.None? || (a.Some? && a.value <= b.value)
  }

  function FirstMail(edits: seq<Edit>): (k: nat)
    ensures k <= |edits| && Mail !in edits[..k]
    ensures k < |edits| <==> Mail in edits
    ensures k < |edits| ==> edits[k] == Mail
  {
    if edits == [] || edits[0] == Mail then 0
    else
      assert forall j :: 1 <= j <= |edits| ==> edits[..j] == [edits[0]] + edits[1..][..j - 1];
      assert edits == [edits[0]] + edits[1..];
      1 + FirstMail(edits[1..])
  }

  /** The list resets; or has no e-mail mask; or cuts a masked address short and masks again; or
      every cut after the first e-mail mask keeps the `@`, and the least of them is no longer than
      any cut before it. */
  predicate Settled(edits: seq<Edit>) {
    Resets(edits) || Mail !in edits ||
    var k := FirstMail(edits);
    var before, after := edits[..k], edits[k + 1..];
    ShortThenMail(after) ||
    (AtMost(Some(5), Least(after)) && AtMost(Least(after), Least(before)))
  }

  // ---------- runs ----------

  lemma {:induction false} RunAppend(a: seq<Edit>, b: seq<Edit>, s: string)
    ensures Run(a + b, s) == Run(b, Run(a, s))
    decreases |a|
  {
    if a == [] {
      assert a + b == b;
    } else {
      assert (a + b)[1..] == a[1..] + b;
      RunAppend(a[1..], b, Do(a[0], s));
    }
  }

  /** After a reset the string does not matter. */
  lemma {:induction false} ResetForgets(edits: seq<Edit>, s: string, t: string)
    requires Resets(edits)
    ensures Run(edits, s) == Run(edits, t)
  {
    if edits[0].Erase? || edits[0] == Cut(0) {
      assert Do(edits[0], s) == Do(edits[0], t);
    } else {
      var k :| 0 <= k < |edits| && (edits[k].Erase? || edits[k] == Cut(0));
      assert edits[1..][k - 1] == edits[k];
      ResetForgets(edits[1..], Do(edits[0], s), Do(edits[0], t));
    }
  }

  lemma NoResetInPart(edits: seq<Edit>, i: nat, j: nat)
    requires !Resets(edits) && i <= j <= |edits|
    ensures !Resets(edits[i..j])
  {
    var part := edits[i..j];
    forall k | 0 <= k < |part|
      ensures !part[k].Erase? && part[k] != Cut(0)
    {
      assert part[k] == edits[i + k];
    }
  }

  function Limit(s: string, limit: Option<nat>): string {
    if limit.Some? then Take(s, limit.value) else s
  }

  lemma LimitTwice(s: string, limit: Option<nat>, n: nat)
    ensures Take(Limit(s, limit), n) == Limit(s, Some(Lesser(n, limit)))
  {
  }

  lemma LimitAgain(s: string, n: nat, limit: Option<nat>)
    ensures Limit(Take(s, n), limit) == Limit(s, Some(Lesser(n, limit)))
  {
  }

  /** Cuts alone are one cut. */
  lemma {:induction false} CutsAreOne(edits: seq<Edit>, s: string)
    requires !Resets(edits) && Mail !in edits
    ensures Run(edits, s) == Limit(s, Least(edits))
  {
    if edits != [] {
      assert edits[0] in edits && edits[0].Cut?;
      NoResetInPart(edits, 1, |edits|);
      assert edits[1..|edits|] == edits[1..];
      CutsAreOne(edits[1..], Take(s, edits[0].n));
      LimitAgain(s, edits[0].n, Least(edits[1..]));
    }
  }

  lemma {:induction false} LeastIsPositive(edits: seq<Edit>)
    requires !Resets(edits)
    ensures Least(edits) != Some(0)
  {
    if edits != [] {
      NoResetInPart(edits, 1, |edits|);
      assert edits[1..|edits|] == edits[1..];
      LeastIsPositive(edits[1..]);
    }
  }

  // ---------- after an e-mail mask ----------

  /** A masked address. */
  predicate IsMail(s: string) {
    |s| >= 5 && s[0] != '@' && s[1..5] == "***@"
  }

  lemma MailOfAddress(s: string)
    ensures '@' in s ==> IsMail(MaskEmail(s)) && MaskEmail(s)[0] == (if s[0] == '@' then '*' else s[0])
    ensures '@' in s ==> |MaskEmail(s)| + Until(s, {'@'}) == |s| + 4
    ensures '@' !in s ==> MaskEmail(s) == MARKER
  {
    if '@' !in s {
      UntilAt(s, "", {'@'});
      assert s + "" == s;
    } else {
      var k :| 0 <= k < |s| && s[k] == '@';
      assert Until(s, {'@'}) <= k;
    }
  }

  lemma MailStays(s: string)
    requires IsMail(s)
    ensures MaskEmail(s) == s
  {
    var local, domain := s[..4], s[5..];
    assert s[1] == s[1..5][0] && s[2] == s[1..5][1] && s[3] == s[1..5][2] && s[4] == s[1..5][3];
    assert s == local + "@" + domain;
    MaskEmailOf(local, domain);
    assert (local + "*")[0] == s[0];
  }

  lemma MarkerStays(s: string)
    requires s <= MARKER
    ensures MaskEmail(s) == MARKER
  {
    assert '@' !in MARKER;
    assert forall k :: 0 <= k < |s| ==> s[k] == MARKER[k];
    MailOfAddress(s);
  }

  /** Cuts that keep the `@` leave a masked address masked. */
  lemma LimitedMail(s: string, limit: Option<nat>)
    requires IsMail(s) && AtMost(Some(5), limit)
    ensures IsMail(Limit(s, limit))
  {
    if limit.Some? {
      assert Take(s, limit.value)[1..5] == s[1..5];
    }
  }

  lemma ShortTail(edits: seq<Edit>)
    requires edits != [] && !ShortThenMail(edits)
    ensures !ShortThenMail(edits[1..])
    ensures edits[0].Cut? && edits[0].n < 5 ==> Mail !in edits[1..]
  {
    assert forall k :: 0 <= k < |edits[1..]| ==> edits[1..][k] == edits[k + 1];
  }

  /** On a masked address, what follows is one cut, unless a short cut is masked again. */
  lemma {:induction false} MailThenCuts(edits: seq<Edit>, s: string, limit: Option<nat>)
    requires IsMail(s) && !Resets(edits) && !ShortThenMail(edits)
    requires Mail in edits ==> AtMost(Some(5), limit)
    ensures Run(edits, Limit(s, limit)) ==
            Limit(s, if Least(edits).None? then limit else Some(Lesser(Least(edits).value, limit)))
    decreases |edits|
  {
    if edits != [] {
      NoResetInPart(edits, 1, |edits|);
      assert edits[1..|edits|] == edits[1..];
      assert edits[0] in edits;
      ShortTail(edits);
      match edits[0] {
        case Cut(n) =>
          LimitTwice(s, limit, n);
          MailThenCuts(edits[1..], s, Some(Lesser(n, limit)));
        case Mail =>
          LimitedMail(s, limit);
          MailStays(Limit(s, limit));
          MailThenCuts(edits[1..], s, limit);
        case Erase =>
          assert false;
      }
    }
  }

  /** On the marker, what follows leaves some of the marker. */
  lemma {:induction false} MarkerThenCuts(edits: seq<Edit>, s: string)
    requires !Resets(edits) && s != "" && s <= MARKER
    ensures Run(edits, s) != "" && Run(edits, s) <= MARKER
    decreases |edits|
  {
    if edits != [] {
      NoResetInPart(edits, 1, |edits|);
      assert edits[1..|edits|] == edits[1..];
      if edits[0].Mail? {
        MarkerStays(s);
      } else {
        assert edits[0].Cut? && edits[0] != Cut(0);
      }
      MarkerThenCuts(edits[1..], Do(edits[0], s));
    }
  }

  /** No `@` among the first four characters: what an e-mail mask leaves, and cuts keep. */
  predicate Shy(s: string) {
    forall i :: 0 <= i < |s| && i < 4 ==> s[i] != '@'
  }

  lemma MailIsShy(s: string)
    ensures Shy(MaskEmail(s))
  {
    MailOfAddress(s);
    if '@' in s {
      var m := MaskEmail(s);
      assert m[1] == m[1..5][0] && m[2] == m[1..5][1] && m[3] == m[1..5][2];
    }
  }

  lemma {:induction false} NoAddressForgets(edits: seq<Edit>, s: string, t: string)
    requires Mail in edits && '@' !in s && '@' !in t
    ensures Run(edits, s) == Run(edits, t)
  {
    MailOfAddress(s);
    MailOfAddress(t);
    if edits[0].Cut? {
      assert edits == [edits[0]] + edits[1..];
      NoAddressForgets(edits[1..], Take(s, edits[0].n), Take(t, edits[0].n));
    }
  }

  /** A short cut that is masked again forgets as well. */
  lemma {:induction false} ShortThenMailForgets(edits: seq<Edit>, s: string, t: string)
    requires ShortThenMail(edits) && Shy(s) && Shy(t)
    ensures Run(edits, s) == Run(edits, t)
  {
    var j, k :| 0 <= j < k < |edits| && edits[j].Cut? && edits[j].n < 5 && edits[k].Mail?;
    var rest, u, w := edits[1..], Do(edits[0], s), Do(edits[0], t);
    assert rest[k - 1] == edits[k];
    if j == 0 {
      NoAddressForgets(rest, u, w);
    } else {
      assert rest[j - 1] == edits[j];
      assert ShortThenMail(rest);
      hide MaskEmail, ShortThenMail;
      MailIsShy(s);
      MailIsShy(t);
      assert Shy(MARKER);
      ShortThenMailForgets(rest, u, w);
    }
  }

  // ---------- the theorem ----------

  /** The list around its first e-mail mask. */
  lemma AroundFirstMail(edits: seq<Edit>, s: string)
    requires Mail in edits
    ensures var k := FirstMail(edits);
            Run(edits, s) == Run(edits[k + 1..], MaskEmail(Run(edits[..k], s)))
  {
    var k := FirstMail(edits);
    var before, after := edits[..k], edits[k + 1..];
    assert edits == before + ([Mail] + after);
    RunAppend(before, [Mail] + after, s);
    assert ([Mail] + after)[1..] == after;
  }

  /** The three runs a list without resets and without a short cut masked again can make. */
  lemma RunsOf(edits: seq<Edit>, s: string)
    requires Mail in edits && !Resets(edits) && !ShortThenMail(edits[FirstMail(edits) + 1..])
    ensures var k := FirstMail(edits);
            var t := Limit(s, Least(edits[..k]));
            if '@' in t then Run(edits, s) == Limit(MaskEmail(t), Least(edits[k + 1..]))
            else Run(edits, s) == Run(edits[k + 1..], MARKER) && Run(edits, s) != "" && Run(edits, s) <= MARKER
  {
    hide Run, FirstMail, Least, MaskEmail, Resets, ShortThenMail;
    var k := FirstMail(edits);
    var before, after := edits[..k], edits[k + 1..];
    NoResetInPart(edits, 0, k);
    NoResetInPart(edits, k + 1, |edits|);
    assert edits[0..k] == before && edits[k + 1..|edits|] == after;
    AroundFirstMail(edits, s);
    CutsAreOne(before, s);
    var t := Limit(s, Least(before));
    MailOfAddress(t);
    if '@' in t {
      MailThenCuts(after, MaskEmail(t), None);
    } else {
      MarkerThenCuts(after, MARKER);
    }
  }

  lemma ForgettingIsIdempotent(edits: seq<Edit>, s: string)
    requires Mail in edits && ShortThenMail(edits[FirstMail(edits) + 1..])
    ensures Run(edits, Run(edits, s)) == Run(edits, s)
  {
    hide Run, ShortThenMail, Shy, FirstMail, MaskEmail;
    var k, once := FirstMail(edits), Run(edits, s);
    var before, after := edits[..k], edits[k + 1..];
    AroundFirstMail(edits, s);
    AroundFirstMail(edits, once);
    MailIsShy(Run(before, s));
    MailIsShy(Run(before, once));
    ShortThenMailForgets(after, MaskEmail(Run(before, s)), MaskEmail(Run(before, once)));
  }

  lemma PrefixOfMarker(s: string)
    requires s <= MARKER
    ensures '@' !in s
  {
    assert '@' !in MARKER;
    assert forall i :: 0 <= i < |s| ==> s[i] == MARKER[i];
  }

  /** The run on a masked address, over what it leaves. */
  lemma LimitTwiceStays(masked: string, before: Option<nat>, after: Option<nat>)
    requires IsMail(masked) && AtMost(Some(5), after) && AtMost(after, before)
    ensures var once := Limit(masked, after);
            Limit(once, before) == once && '@' in once && MaskEmail(once) == once && Limit(once, after) == once
  {
    hide MaskEmail;
    var once := Limit(masked, after);
    LimitedMail(masked, after);
    MailStays(once);
    assert once[4] == once[1..5][3];
  }

  lemma KeptMailIsIdempotent(edits: seq<Edit>, s: string)
    requires Mail in edits && !Resets(edits) && !ShortThenMail(edits[FirstMail(edits) + 1..])
    requires var k := FirstMail(edits);
             AtMost(Some(5), Least(edits[k + 1..])) && AtMost(Least(edits[k + 1..]), Least(edits[..k]))
    ensures Run(edits, Run(edits, s)) == Run(edits, s)
  {
    hide Run, FirstMail, Least, MaskEmail, Resets, ShortThenMail;
    var k, once := FirstMail(edits), Run(edits, s);
    var before, after := Least(edits[..k]), Least(edits[k + 1..]);
    RunsOf(edits, s);
    RunsOf(edits, once);
    var t := Limit(s, before);
    if '@' in t {
      MailOfAddress(t);
      LimitTwiceStays(MaskEmail(t), before, after);
    } else {
      PrefixOfMarker(Limit(once, before));
    }
  }

  lemma SettledIsEnough(edits: seq<Edit>, s: string)
    requires Settled(edits)
    ensures Run(edits, Run(edits, s)) == Run(edits, s)
  {
    hide Run, FirstMail, Least, Resets, ShortThenMail;
    if Resets(edits) {
      ResetForgets(edits, s, Run(edits, s));
    } else if Mail !in edits {
      CutsAreOne(edits, s);
      CutsAreOne(edits, Limit(s, Least(edits)));
    } else if ShortThenMail(edits[FirstMail(edits) + 1..]) {
      ForgettingIsIdempotent(edits, s);
    } else {
      KeptMailIsIdempotent(edits, s);
    }
  }

  /** A string that tells: one `@`, padded to the length of the least cut before the e-mail mask. */
  function Probe(limit: Option<nat>): string {
    if limit.None? || limit.value == 0 then "@" else "@" + seq(limit.value - 1, _ => 'x')
  }

  lemma ProbeMasked(limit: Option<nat>)
    requires limit != Some(0)
    ensures var s := Probe(limit);
            '@' in s && Limit(s, limit) == s && MaskEmail(s)[0] == '*' && IsMail(MaskEmail(s)) &&
            |MaskEmail(s)| == |s| + 4
  {
    var s := Probe(limit);
    assert s[0] == '@';
    MailOfAddress(s);
    assert Until(s, {'@'}) == 0;
  }

  /** Where the cuts of a second run leave the `@` alone, they have shortened the string. */
  lemma SecondRunIsShorter(masked: string, before: Option<nat>, after: Option<nat>)
    requires IsMail(masked) && Shy(masked) && before != Some(0)
    requires |masked| == (if before.Some? then before.value else 1) + 4
    requires !(AtMost(Some(5), after) && AtMost(after, before))
    requires '@' in Limit(Limit(masked, after), before)
    ensures MaskEmail(Limit(Limit(masked, after), before)) == Limit(Limit(masked, after), before)
    ensures |Limit(Limit(masked, after), before)| < |Limit(masked, after)|
  {
    hide MaskEmail;
    var again := Limit(Limit(masked, after), before);
    var i :| 0 <= i < |again| && again[i] == '@';
    assert again[i] == masked[i] && i >= 4;
    assert again[1..5] == masked[1..5] && again[0] == masked[0];
    MailStays(again);
  }

  lemma UnsettledIs(edits: seq<Edit>)
    requires !Settled(edits)
    ensures Mail in edits && !Resets(edits) && !ShortThenMail(edits[FirstMail(edits) + 1..])
    ensures var k := FirstMail(edits);
            var before, after := Least(edits[..k]), Least(edits[k + 1..]);
            before != Some(0) && after != Some(0) && !(AtMost(Some(5), after) && AtMost(after, before))
  {
    hide Resets, ShortThenMail, Least;
    var k := FirstMail(edits);
    NoResetInPart(edits, 0, k);
    NoResetInPart(edits, k + 1, |edits|);
    assert edits[0..k] == edits[..k] && edits[k + 1..|edits|] == edits[k + 1..];
    LeastIsPositive(edits[..k]);
    LeastIsPositive(edits[k + 1..]);
  }

  lemma UnsettledMoves(edits: seq<Edit>) returns (s: string)
    requires !Settled(edits)
    ensures Run(edits, Run(edits, s)) != Run(edits, s)
  {
    hide Run, FirstMail, Least, MaskEmail, Resets, ShortThenMail, Settled, Probe;
    UnsettledIs(edits);
    var k := FirstMail(edits);
    var before, after := Least(edits[..k]), Least(edits[k + 1..]);
    s := Probe(before);
    ProbeMasked(before);
    ProbeLength(before);
    RunsOf(edits, s);
    MailIsShy(s);
    var masked, once := MaskEmail(s), Run(edits, s);
    assert once == Limit(masked, after) && once[0] == '*';
    RunsOf(edits, once);
    if '@' in Limit(once, before) {
      SecondRunIsShorter(masked, before, after);
    } else {
      assert MARKER[0] == '[';
    }
  }

  lemma ProbeLength(limit: Option<nat>)
    requires limit != Some(0)
    ensures |Probe(limit)| == if limit.Some? then limit.value else 1
  {
  }

  /** The lists of edits that are idempotent, exactly. */
  lemma IdempotentExactly(edits: seq<Edit>)
    ensures Idempotent(edits) <==> Settled(edits)
  {
    if Settled(edits) {
      forall s
        ensures Run(edits, Run(edits, s)) == Run(edits, s)
      {
        SettledIsEnough(edits, s);
      }
    } else {
      var s := UnsettledMoves(edits);
    }
  }
}
