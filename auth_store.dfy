/**
 * The `auth` store as an object: four fields that the two actions update in
 * place, and the two getters, which only read the fields.
 */
module AuthStore {
  import opened Text
  import opened AuthState

  class Store {
    var token: string
    var username: string
    var randomCount: nat
    var rememberMe: bool

    /** The current values of the four fields. */
    function Current(): Snapshot
      reads this
    {
      Snapshot(token, username, randomCount, rememberMe)
    }

    /** A new store holds the default state. */
    constructor ()
      ensures token == "" && username == "" && randomCount == 0 && !rememberMe
      ensures Current() == Initial()
    {
      token := "";
      username := "";
      randomCount := 0;
      rememberMe := false;
    }

    /** Overwrites the username with `value` as given; nothing else changes. */
    method SetUsername(value: string)
      modifies this
      ensures username == value
      ensures token == old(token) && randomCount == old(randomCount) && rememberMe == old(rememberMe)
      ensures Current() == Apply(old(Current()), AuthState.SetUsername(value))
    {
      username := value;
    }

    /** Adds one to the counter; nothing else changes. */
    method IncreaseRandomCount()
      modifies this
      ensures randomCount == old(randomCount) + 1
      ensures token == old(token) && username == old(username) && rememberMe == old(rememberMe)
      ensures Current() == Apply(old(Current()), AuthState.IncreaseRandomCount)
    {
      randomCount := randomCount + 1;
    }

    /**
     * The `modUsername` getter read through the store, `random` standing for
     * the draw of the random source. As a function it only reads the fields.
     */
    function ModUsername(random: real): (r: Option<string>)
      reads this
      requires 0.0 <= random < 1.0
      ensures r.None? <==> username == []
      ensures r.Some? ==> r.value == StrippedUsername(username) + NatToString(CeilThousand(random))
    {
      AuthState.ModUsername(Current(), random)
    }

    /** The `doubleRandomCount` getter read through the store; it only reads the fields. */
    function DoubleRandomCount(): (r: nat)
      reads this
      ensures r == 2 * randomCount
    {
      AuthState.DoubleRandomCount(Current())
    }
  }
}
