/**
 * The state of the `auth` store as a value: the four fields, the default
 * snapshot, the two getters (which are functions of the snapshot), and the
 * two actions as transitions from one snapshot to the next, with what any
 * sequence of actions can and cannot do to the fields.
 */
module AuthState {
  import opened Text

  datatype Option<T> = None | Some(value: T)

  datatype Snapshot = Snapshot(token: string, username: string, randomCount: nat, rememberMe: bool)

  /** The state a store starts in. */
  function Initial(): (s: Snapshot)
    ensures s.token == "" && s.username == "" && s.randomCount == 0 && !s.rememberMe
  {
    Snapshot(token := "", username := "", randomCount := 0, rememberMe := false)
  }

  // ---------------------------------------------------------------- getters

  /** The username lower-cased, with every space turned into an underscore. */
  function StrippedUsername(username: string): (r: string)
    ensures |r| == |username|
    ensures ' ' !in r
    ensures forall i :: 0 <= i < |r| ==> !IsAsciiUpper(r[i])
    ensures forall i :: 0 <= i < |r| && username[i] != ' ' ==> r[i] == LowerChar(username[i])
    ensures forall i :: 0 <= i < |r| && username[i] == ' ' ==> r[i] == '_'
    ensures r == [] <==> username == []
  {
    ReplaceAll(LowerCase(username), ' ', '_')
  }

  /**
   * `Math.ceil(random * 1000)` for a draw `random` in [0, 1): the least
   * integer not below `random * 1000`. It is 0 exactly when the draw is 0.
   */
  function CeilThousand(random: real): (n: nat)
    requires 0.0 <= random < 1.0
    ensures n <= 1000
    ensures (n as real) - 1.0 < random * 1000.0 <= n as real
    ensures n == 0 <==> random == 0.0
  {
    var y := random * 1000.0;
    if y.Floor as real == y then y.Floor else y.Floor + 1
  }

  /**
   * The `modUsername` getter. Absent when the stripped username is empty;
   * otherwise the stripped username immediately followed by the decimal
   * digits of the draw.
   */
  function ModUsername(s: Snapshot, random: real): (r: Option<string>)
    requires 0.0 <= random < 1.0
    ensures r.None? <==> s.username == []
    ensures r.Some? ==>
      var n := |s.username|;
      n < |r.value| <= n + 4 &&
      r.value[..n] == StrippedUsername(s.username) &&
      IsDecimal(r.value[n..]) &&
      (|r.value| > n + 1 ==> r.value[n] != '0') &&
      ParseDecimal(r.value[n..]) == CeilThousand(random)
    ensures r.Some? ==> r.value == StrippedUsername(s.username) + NatToString(CeilThousand(random))
  {
    var stripped := StrippedUsername(s.username);
    if stripped != [] then
      var suffix := NatToString(CeilThousand(random));
      ParseNatToString(CeilThousand(random));
      NatToStringWidth(CeilThousand(random));
      assert (stripped + suffix)[..|stripped|] == stripped;
      assert (stripped + suffix)[|stripped|..] == suffix;
      Some(stripped + suffix)
    else
      None
  }

  /** The `doubleRandomCount` getter: always even, and half of it is the counter. */
  function DoubleRandomCount(s: Snapshot): (r: nat)
    ensures r % 2 == 0 && r / 2 == s.randomCount
  {
    s.randomCount * 2
  }

  /** On the default state neither getter has anything to show. */
  lemma InitialGetters(random: real)
    requires 0.0 <= random < 1.0
    ensures DoubleRandomCount(Initial()) == 0
    ensures ModUsername(Initial(), random) == None
  {
  }

  /** "Jane Doe" always becomes "jane_doe" followed by the draw, with no separator. */
  lemma JaneDoe(s: Snapshot, random: real)
    requires 0.0 <= random < 1.0
    requires s.username == "Jane Doe"
    ensures ModUsername(s, random) == Some("jane_doe" + NatToString(CeilThousand(random)))
  {
    var u := s.username;
    assert StrippedUsername(u) == "jane_doe" by {
      var r := StrippedUsername(u);
      assert r[0] == LowerChar('J') == 'j' && r[5] == LowerChar('D') == 'd';
      assert r[1] == 'a' && r[2] == 'n' && r[3] == 'e' && r[4] == '_';
      assert r[6] == 'o' && r[7] == 'e';
    }
  }

  /** A username without spaces is only lower-cased. */
  lemma StrippedWithoutSpaces(username: string)
    requires ' ' !in username
    ensures StrippedUsername(username) == LowerCase(username)
  {
    assert ' ' !in LowerCase(username);
    ReplaceAllAbsent(LowerCase(username), ' ', '_');
  }

  /** The stripped username ignores the case of ASCII letters: lower-casing first changes nothing. */
  lemma StrippedIgnoresCase(username: string)
    ensures StrippedUsername(LowerCase(username)) == StrippedUsername(username)
  {
    LowerCaseIdempotent(username);
  }

  /** A draw of exactly 0 gives the suffix "0": the suffix range is 0..1000, not 1..1000. */
  lemma ZeroDrawGivesZeroSuffix(s: Snapshot)
    requires s.username == "Jane Doe"
    ensures ModUsername(s, 0.0) == Some("jane_doe0")
  {
    JaneDoe(s, 0.0);
    assert CeilThousand(0.0) == 0 && NatToString(0) == "0";
    assert "jane_doe" + "0" == "jane_doe0";
  }

  // ---------------------------------------------------------------- actions

  datatype Action = SetUsername(value: string) | IncreaseRandomCount

  /** The effect of one action on a snapshot: each action writes its own field and no other. */
  function Apply(s: Snapshot, a: Action): (t: Snapshot)
    ensures t.token == s.token && t.rememberMe == s.rememberMe
    ensures a.SetUsername? ==> t.username == a.value && t.randomCount == s.randomCount
    ensures a.IncreaseRandomCount? ==> t.randomCount == s.randomCount + 1 && t.username == s.username
  {
    match a
    case SetUsername(v) => s.(username := v)
    case IncreaseRandomCount => s.(randomCount := s.randomCount + 1)
  }

  /**
   * The effect of a sequence of actions, first to last. The counter never
   * goes down and goes up by at most one per action.
   */
  function Run(s: Snapshot, acts: seq<Action>): (t: Snapshot)
    ensures s.randomCount <= t.randomCount <= s.randomCount + |acts|
    ensures acts == [] ==> t == s
    decreases |acts|
  {
    if acts == [] then s else Run(Apply(s, acts[0]), acts[1..])
  }

  /** The number of `IncreaseRandomCount` actions in `acts`. */
  function Increments(acts: seq<Action>): nat
    decreases |acts|
  {
    if acts == [] then 0
    else (if acts[0].IncreaseRandomCount? then 1 else 0) + Increments(acts[1..])
  }

  /** The value of the last `SetUsername` in `acts`, or `current` when there is none. */
  function LastUsername(acts: seq<Action>, current: string): string
    decreases |acts|
  {
    if acts == [] then current
    else LastUsername(acts[1..], if acts[0].SetUsername? then acts[0].value else current)
  }

  /** Running `a` and then `b` is running `a + b`. */
  lemma {:induction false} RunAppend(s: Snapshot, a: seq<Action>, b: seq<Action>)
    ensures Run(s, a + b) == Run(Run(s, a), b)
    decreases |a|
  {
    if a == [] {
      assert a + b == b;
    } else {
      assert (a + b)[0] == a[0] && (a + b)[1..] == a[1..] + b;
      RunAppend(Apply(s, a[0]), a[1..], b);
    }
  }

  /** The counter goes up by one per increment and by nothing else. */
  lemma {:induction false} RunCounter(s: Snapshot, acts: seq<Action>)
    ensures Run(s, acts).randomCount == s.randomCount + Increments(acts)
    decreases |acts|
  {
    if acts != [] {
      RunCounter(Apply(s, acts[0]), acts[1..]);
    }
  }

  /** No action ever writes `token` or `rememberMe`. */
  lemma {:induction false} RunKeepsTokenAndRememberMe(s: Snapshot, acts: seq<Action>)
    ensures Run(s, acts).token == s.token
    ensures Run(s, acts).rememberMe == s.rememberMe
    decreases |acts|
  {
    if acts != [] {
      RunKeepsTokenAndRememberMe(Apply(s, acts[0]), acts[1..]);
    }
  }

  /** The username is whatever the last `SetUsername` wrote, verbatim. */
  lemma {:induction false} RunUsername(s: Snapshot, acts: seq<Action>)
    ensures Run(s, acts).username == LastUsername(acts, s.username)
    decreases |acts|
  {
    if acts != [] {
      RunUsername(Apply(s, acts[0]), acts[1..]);
    }
  }

  /** Along any run, the counter never decreases: every prefix has a counter no larger than the whole. */
  lemma RunCounterMonotone(s: Snapshot, acts: seq<Action>, i: nat)
    requires i <= |acts|
    ensures Run(s, acts[..i]).randomCount <= Run(s, acts).randomCount
  {
    assert acts == acts[..i] + acts[i..];
    RunAppend(s, acts[..i], acts[i..]);
    RunCounter(Run(s, acts[..i]), acts[i..]);
  }

  /** From the default state, `k` increments leave the counter at `k` and the doubled counter at `2k`. */
  lemma KIncrements(k: nat)
    ensures Run(Initial(), seq(k, _ => IncreaseRandomCount)).randomCount == k
    ensures DoubleRandomCount(Run(Initial(), seq(k, _ => IncreaseRandomCount))) == 2 * k
  {
    var acts := seq(k, _ => IncreaseRandomCount);
    RunCounter(Initial(), acts);
    IncrementsAll(acts);
  }

  lemma {:induction false} IncrementsAll(acts: seq<Action>)
    requires forall i :: 0 <= i < |acts| ==> acts[i] == IncreaseRandomCount
    ensures Increments(acts) == |acts|
    decreases |acts|
  {
    if acts != [] {
      IncrementsAll(acts[1..]);
    }
  }
}
