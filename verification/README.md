# mpsquic path-selection policy, in Dafny

This project models the path-selection policy of the multipath QUIC-over-SCION
package `mpsquic` (`pkg/mpsquic/policy.go`). The external session manager hands
the policy a snapshot of candidate paths. Each candidate has a SCION path, a
measured RTT and a revocation flag. The policy answers with the index of the path
to send on, plus a time at which the choice should be re-evaluated.

There is one policy, `lowestRTT`. It scans the candidates once and keeps a
running best, which a candidate replaces only when the comparator `better` says
it is strictly better. The re-evaluation time is the current time plus
`lowestRTTReevaluateInterval`, which is one second.

Everything lives in module `MpSquic` (`policy.dfy`):

- `PathInfo`, `Path` and `PathInterface` are the data. `Duration` is Go's `time.Duration`, an int64 count of nanoseconds. `Time` is a point in time in nanoseconds.
- `NumHops` is the length of a path's interface list.
- `Better` is the comparator, written with the formula exactly as in the source.
- `Chosen` is the functional specification of the scan. `SelectLowestRTT` is the scan itself, a loop proved to compute `Chosen`.
- `Policy` is the Go `Policy` interface. It is modelled as a datatype with one variant per implementation. Its `Select` method dispatches to the implementation and states the contract the interface promises.

The comparator is modelled as the code writes it. Its comment at
`pkg/mpsquic/policy.go:53` reads "prefer non-revoked, prefer lower RTT", and the
tie test at line 54 (`a.revoked == b.revoked && a.rtt == b.rtt`) suggests a
lexicographic order on (revoked, rtt, hops). Go's `&&` binds tighter than `||`,
so the first disjunct is in fact `(!a.revoked && b.revoked) || a.rtt < b.rtt`,
and a revoked path with a lower RTT is better than a live path. Within a set of
paths that share one revocation flag, `better` is the lexicographic order on
(RTT, hops). Across different flags it is neither asymmetric nor transitive. The
lemmas in `policy.dfy` prove these facts and these consequences for the scan:

- A revoked path can be selected although a live one is on offer: `[live at 80, revoked at 10]` selects index 1.
- A live path can be selected although a faster live path is on offer: `[live at 30, revoked at 10, live at 50]` selects index 2, not the faster live index 0.
- When all RTTs are equal, as before any is measured, the scan returns a live path if there is one, with the fewest hops among the paths of its flag. The doc comment at lines 35-37 says the path "with fewest hops", but fewest hops overall does not hold: `[revoked with 1 hop, live with 5 hops]` at equal RTT selects index 1.

`Select` on an empty list returns index 0 and does not fail. The model keeps
that behaviour: `SelectLowestRTT` has no precondition, and its result is in
range exactly when the list is non-empty. Because `SelectLowestRTT` ensures
`best == Chosen(paths)`, two calls on the same snapshot give the same index.

## Model

| member | source | states |
|---|---|---|
| MpSquic.Better | pkg/mpsquic/policy.go:51-60 | Uses `NumHops` (lines 58-60), the length of the path's interface list, as the hop count. A live path beats a revoked one, and a lower RTT wins whatever the flags. Between equally revoked paths the result is exactly the lexicographic order on (rtt, number of hops). A revoked path beats a live one exactly when its RTT is lower. |
| MpSquic.BetterIrreflexive | pkg/mpsquic/policy.go:52-55 | No path is better than itself, so the scan keeps the earlier index on an exact tie. |
| MpSquic.BetterStrictOrderWhenSameFlag | pkg/mpsquic/policy.go:52-55 | For paths with one revocation flag, the comparator is asymmetric and transitive. It also separates any two paths whose (rtt, hops) pairs differ. |
| MpSquic.BetterNotAsymmetric | pkg/mpsquic/policy.go:53 | Some live path and some revoked path are each better than the other. |
| MpSquic.BetterNotTransitive | pkg/mpsquic/policy.go:53-55 | Across revocation flags the comparator is not transitive. |
| MpSquic.Chosen | pkg/mpsquic/policy.go:41-47 | The index the scan settles on. It is within bounds for a non-empty list and 0 for an empty one. |
| MpSquic.ChosenNoLaterBetter | pkg/mpsquic/policy.go:43-47 | No candidate after the chosen index is better than the chosen one. |
| MpSquic.ChosenLowestWhenUniform | pkg/mpsquic/policy.go:35-37 | If all candidates share a revocation flag, the chosen path has the lowest RTT. Among paths with that RTT it has the fewest hops, and no earlier path has the same (rtt, hops) pair. |
| MpSquic.LowestRTTChoiceUnique | pkg/mpsquic/policy.go:35-37 | At most one index meets that lowest-RTT, fewest-hops, earliest description, so in the uniform case the choice is determined. |
| MpSquic.RevokedPathCanBeChosen | pkg/mpsquic/policy.go:41-56 | The scan can select a revoked path even when a live path is on offer, as with [live at 80, revoked at 10]. |
| MpSquic.LiveChoiceNotFastestLive | pkg/mpsquic/policy.go:43-47 | With mixed flags the scan can select a live path although a faster live path is on offer, as with [live at 30, revoked at 10, live at 50]. |
| MpSquic.ChosenFewestHopsWhenRTTsEqual | pkg/mpsquic/policy.go:35-37 | If all candidates have the same RTT, the chosen path is live whenever some candidate is. Among the paths with its flag it has the fewest hops, and no earlier path has the same (revoked, hops) pair. |
| MpSquic.FewestHopsOverallFails | pkg/mpsquic/policy.go:35-37 | At equal RTTs the scan need not return the path with the fewest hops overall, as with [revoked with 1 hop, live with 5 hops]. |
| MpSquic.WorkedExamples | pkg/mpsquic/policy.go:41-56 | A lower RTT beats fewer hops. A later live path beats an earlier revoked one with lower RTT. Fewer hops break an RTT tie. A single candidate gives index 0. |
| MpSquic.SelectLowestRTT | pkg/mpsquic/policy.go:41-49 | lowestRTT.Select computes `Chosen`. Its index is within bounds for a non-empty list, 0 for an empty or single-element list, and never beaten by a later candidate. In the uniform-revocation case it is the lowest-RTT choice. The deadline is `now` plus the one-second interval. |
| MpSquic.Policy.Select | pkg/mpsquic/policy.go:23-33 | Every policy returns an index within bounds when there is a candidate and a re-evaluation time after `now`. For `LowestRTT` it returns the scan's choice. |

## Left out

- `pkg/mpsquic/squic.go` (dialing and listening helpers, TLS configuration, socket binding) is session setup with no decision logic, so it is not part of this model.
- The wall clock `time.Now()` becomes the input `now`. Overflow of the deadline is not modelled: `Time` is an unbounded integer, while Go's `time.Time.Add` works on a 64-bit representation.
- A SCION path is reduced to its list of interfaces (AS and interface id). The policy uses only the length of that list. Expiry and the other path metadata are not modelled.
- How `pathInfo` entries are filled in and refreshed is not modelled. RTT probing and revocation handling live in the session manager, which is not part of this model. Concurrent access to the entries is also left out.
- The candidates are a sequence of values, not a slice of pointers, so aliasing between entries is not modelled.
- Nil entries are not modelled. In Go a nil entry panics once it is compared, so a one-element list holding nil still returns 0. A nil `path` field panics in `numHops` only when two entries with equal flags tie on RTT.
- `Policy` is a closed datatype with one variant instead of an open Go interface. Other implementations would be added as variants.
