# Auth store model

A Dafny model of the `auth` store of a Vue front-end, which is declared with Pinia's `defineStore`
in `store/auth.ts`. The store holds four fields. `token` and `username` are strings,
`randomCount` is a counter and `rememberMe` is a flag. It has two actions and two getters:

- `setUsername` overwrites `username` with its argument, unchanged.
- `increaseRandomCount` adds one to `randomCount`.
- `doubleRandomCount` gives twice the counter.
- `modUsername` lower-cases the username and turns each space into `_`. If the result is empty,
  it gives nothing. Otherwise it appends `Math.ceil(Math.random() * 1000)` with no separator.

The model has three modules:

- `Text` (`text.dfy`): character-wise lower-casing, single-character `replaceAll`, and decimal
  rendering of a natural number. A decimal parser undoes the rendering.
- `AuthState` (`auth_state.dfy`): the state as a `Snapshot` value and the default snapshot. The
  getters are functions of the snapshot, as Pinia passes `state` to them. The actions are
  transitions `Apply` and `Run` over snapshots, and lemmas cover any sequence of actions.
- `AuthStore` (`auth_store.dfy`): the store as a class `Store` with the four fields. Its
  constructor sets the defaults. `SetUsername` and `IncreaseRandomCount` update fields in place
  under `modifies this`, and each is proved to equal `Apply` on the old state. The getters are
  functions that only read the fields, so reading a getter changes no field.

The random draw `Math.random()` is lifted to a parameter `random: real` with `0 <= random < 1`.
`Math.ceil(random * 1000)` is modelled exactly over the reals, which gives a suffix in 0..1000.
The suffix is 0 exactly when the draw is 0. The expression reads as if it yields 1..1000, but
`Math.random()` may return 0 and `Math.ceil(0)` is 0, so 0 is reachable
(`AuthState.ZeroDrawGivesZeroSuffix`).

## Model

| member | source | states |
|---|---|---|
| Text.LowerChar | store/auth.ts:23 | the result is never an ASCII capital; it differs from the input exactly when the input is a capital, and then it is the matching small letter |
| Text.LowerCase | store/auth.ts:23 | lower-casing keeps the length and maps each position through LowerChar |
| Text.LowerCaseIdempotent | store/auth.ts:23 | lower-casing an already lower-cased string changes nothing |
| Text.ReplaceAll | store/auth.ts:23 | `replaceAll` with a one-character pattern keeps the length, puts `to` where `from` was and keeps every other character; when `from != to`, no `from` is left |
| Text.ReplaceAllAbsent | store/auth.ts:23 | a string without the pattern character is returned unchanged |
| Text.NatToString | store/auth.ts:25 | the decimal text of the suffix is non-empty, all digits, and without leading zeros |
| Text.ParseNatToString | store/auth.ts:25 | reading the decimal text of `n` back gives `n` (the rendering is lossless) |
| Text.NatToStringShort | store/auth.ts:25 | a number below 10^k renders in at most k digits |
| Text.NatToStringWidth | store/auth.ts:25 | a suffix up to 1000 renders in one to four digits |
| AuthState.Initial | store/auth.ts:7-13 | the default state has `token == ""`, `username == ""`, `randomCount == 0` and `rememberMe == false` |
| AuthState.StrippedUsername | store/auth.ts:23 | the stripped username has the length of the username, puts `_` at every position where the username has a space, lower-cases every other character, contains no space and no ASCII capital, and is empty exactly when the username is |
| AuthState.StrippedWithoutSpaces | store/auth.ts:23 | for a username without spaces, the stripped username is the username lower-cased and nothing more |
| AuthState.StrippedIgnoresCase | store/auth.ts:23 | lower-casing the username before stripping it changes nothing, so ASCII case never affects `modUsername` |
| AuthState.CeilThousand | store/auth.ts:25 | `Math.ceil(random * 1000)` is the least integer not below `random * 1000`, lies in 0..1000, and is 0 exactly when the draw is 0 |
| AuthState.ModUsername | store/auth.ts:22-27 | `modUsername` is absent exactly when the username is empty; otherwise it equals the stripped username followed immediately by the decimal text of `Math.ceil(random * 1000)`; its first n characters (n the length of the username) are the stripped username and the rest is one to four digits, with no leading zero, that read back as that ceiling |
| AuthState.DoubleRandomCount | store/auth.ts:28 | `doubleRandomCount` is even and half of it is the counter |
| AuthState.InitialGetters | store/auth.ts:7-28 | on the default state `doubleRandomCount` is 0 and `modUsername` is absent |
| AuthState.JaneDoe | store/auth.ts:22-27 | for the username "Jane Doe", `modUsername` is "jane_doe" followed directly by the digits of the draw |
| AuthState.ZeroDrawGivesZeroSuffix | store/auth.ts:25 | a draw of exactly 0 gives "jane_doe0", so the suffix 0 is reachable |
| AuthState.Apply | store/auth.ts:36-41 | `setUsername` writes only `username`, with the argument verbatim; `increaseRandomCount` writes only `randomCount`, adding one; neither touches `token` or `rememberMe` |
| AuthState.Run | store/auth.ts:35-42 | over any sequence of actions the counter never goes down and grows by at most one per action; the empty sequence changes nothing |
| AuthState.RunAppend | store/auth.ts:35-42 | running two sequences of actions one after the other is running their concatenation |
| AuthState.RunCounter | store/auth.ts:39-41 | after any sequence of actions the counter has grown by exactly the number of `increaseRandomCount` calls |
| AuthState.RunCounterMonotone | store/auth.ts:39-41 | along any sequence of actions the counter never decreases |
| AuthState.RunKeepsTokenAndRememberMe | store/auth.ts:35-42 | no sequence of actions changes `token` or `rememberMe` |
| AuthState.RunUsername | store/auth.ts:36-38 | after any sequence of actions the username is the value of the last `setUsername`, verbatim, or the old username if there was none |
| AuthState.KIncrements | store/auth.ts:7-41 | from the default state, k increments give counter k and `doubleRandomCount` 2k |
| AuthStore.Store.constructor | store/auth.ts:7-13 | a new store has `token == ""`, `username == ""`, `randomCount == 0` and `rememberMe == false` |
| AuthStore.Store.SetUsername | store/auth.ts:36-38 | `username` becomes the argument exactly, the other three fields are unchanged, and the new state is `Apply` of the action |
| AuthStore.Store.IncreaseRandomCount | store/auth.ts:39-41 | `randomCount` goes up by one, the other three fields are unchanged, and the new state is `Apply` of the action |
| AuthStore.Store.ModUsername | store/auth.ts:22-27 | reading the getter gives nothing exactly when `username` is empty, and otherwise the stripped current username followed by the decimal text of the draw's ceiling; as a function it changes no field |
| AuthStore.Store.DoubleRandomCount | store/auth.ts:28 | reading the getter gives twice the current counter; as a function it changes no field |

## Left out

- Pinia's `defineStore` (store/auth.ts:1, 3): store registration, the singleton, and reactivity are framework behaviour. The store is a plain class.
- The `persist` block (store/auth.ts:47-53): saving to and loading from a cookie goes through a plugin that is not part of this model. So the save/load round trip and the fallback to defaults on a missing or malformed cookie are not modelled.
- The random source: `Math.random()` is a parameter `random` in [0, 1). Its distribution is not modelled. Pinia evaluates the getter as a cached computed property (store/auth.ts:16), so the suffix stays the same while `username` does not change. The model takes the draw as a parameter and does not capture when re-evaluation happens; passing the same `random` again models a cached read.
- AuthState.CeilThousand: uses exact real arithmetic. It ignores floating-point rounding of `random * 1000`. Rounding is monotone, so it cannot push the result outside 0..1000.
- Text.LowerCase: models `toLocaleLowerCase` as ASCII lower-casing. This is length-preserving. Locale rules and Unicode case mappings are not modelled, including those that change a string's length.
- AuthStore.Store.IncreaseRandomCount: the counter is an unbounded natural number. The source stores a JavaScript number, which loses integer precision above 2^53.
