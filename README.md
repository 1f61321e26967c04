# factorize — a verified model of the factorization engine

This project models the integer-factorization core of the Rust crate `factorize` in Dafny
and proves what its code promises. rug's `Integer` becomes Dafny's unbounded `int`. The core
has these parts:

- **Miller-Rabin** (`Primality`): `factor_out_twos` and `miller_rabin`, with the random
  witnesses as a parameter. Its Composite verdict is proved sound through Fermat's little
  theorem (`Residues`).
- **Pollard's rho with Floyd's cycle finding** (`BrentsRho`): `brents_rho_single` as a loop
  over two cursors, and the retry over offsets 1 to 99. The single run is proved to end
  within `n` rounds.
- **Fermat's difference of squares** (`Fermat`): `ceiling_root` exactly as written, and the
  `a += 1` search.
- **The worklist driver** (`Worklist`): stripping the twos, then a FIFO queue in which each
  number is tested with Miller-Rabin at 40 rounds and composites are split. `Run` describes
  the loop as a function; each driver's `Drain` method is proved equal to it. The key
  invariant is that the factors times the queue multiply back to the input.
- **Baselines**:
  - trial division (`TrialDivision`), with the `u128` copy of src/math.rs;
  - Euclid's `gcd` (`Gcd`);
  - the sieve, as a class over an array (`Sieves`);
  - the algorithm-name parser and its display (`Algorithms`).
- **The older copy in src/algorithms.rs** (`Legacy`): `brents_rho` is the newer driver
  followed by `factors.sort()`. Its `trial_division`, `brents_rho_single`, `gcd`,
  `miller_rabin` and `factor_out_twos` are word for word the per-module functions, so the
  same members model both copies.
- **The known answers of the test modules** (`KnownAnswers`): proved for every choice of
  witnesses.

Integer arithmetic that rug provides is stated mathematically in `Arith`:

- `pow_mod` is `ModPow`;
- `root(2)` is the floor square root `Isqrt`;
- `is_perfect_square` is `IsSquare`, which is false on negative numbers;
- Rust's truncating `%` is `TRem`, which differs from Dafny's Euclidean `%` on negative
  dividends.

Randomness: `RandState::new()` starts from the same default seed on every call of
`miller_rabin`, and every draw in one call uses the bound `number - 3`. The k-th witness is
therefore a fixed function of the bound and of k. The model takes that function as a
parameter `draw`, constrained only by `0 <= draw(bound, k) < bound`. Every property is proved
for all such functions.

Termination:

- The rho driver is total, because every split is proper. Its model therefore runs with a
  bound of `2 * n` pops and is proved never to exhaust it.
- Fermat's driver does not end on the square of an odd prime. It is modelled with an
  explicit `fuel` bound on the number of pops, and the model proves that it exhausts any
  such bound on those inputs.

A popped 1 ends the rho driver (`stopOnOne = true`), and Fermat's driver skips it.

## Model

| member | source | states |
|---|---|---|
| `Arith.TRem` | src/lib.rs:17 | rug's `%` truncates: the remainder's magnitude is `Abs(a) % Abs(b)`, its sign is the dividend's, and `a - r` is a multiple of `b` |
| `Arith.Isqrt` | src/algorithms/fermat.rs:10 | `root(2)` is the floor square root: `r^2 <= n < (r+1)^2` |
| `Arith.TwoAdic` | src/algorithms/primality.rs:53-55 | a non-zero `m` is `2^s * d` with `d` odd, and `d > 0` when `m > 0` |
| `Arith.TwoAdicUnique` | src/algorithms/primality.rs:53-55 | that representation is unique: any `2^s * d == m` with odd `d` is the one `TwoAdic` gives |
| `Primality.Witness` | src/algorithms/primality.rs:23-28 | every witness drawn, `random_below(n - 3) + 2`, lies in `[2, n - 2]` |
| `Primality.EvenTRem` | src/algorithms/primality.rs:16-17 | the truncating test `x % 2 == 0` agrees with evenness for negative `x` too |
| `Primality.FactorOutTwos` | src/algorithms/primality.rs:56-77 | for even non-zero `n`, the loop returns `(s, d)` with `2^s * d == n`, `d` odd, `s >= 1`, and it is the unique such pair |
| `Primality.SquaredStep` | src/algorithms/primality.rs:41 | squaring the witness modulo `n` moves from `a^(d*2^i)` to `a^(d*2^(i+1))` modulo `n`, and the value stays in `[0, n)` |
| `Primality.MillerRabinSpec` | src/algorithms/primality.rs:11-51 | what the round loop computes: 2 and 3 accepted, other even numbers and numbers below 3 rejected, an odd `n >= 5` accepted exactly when each of the `iterations` witnesses passes a round; no ensures of its own, its meaning is stated by `Primality.MillerRabin` (the loop computes it) and `Primality.MillerRabinSound` (a prime is accepted) |
| `Primality.MillerRabin` | src/algorithms/primality.rs:11-51 | the verdict is `MillerRabinSpec`: 2 and 3 are probable primes, 0, 1 and other even numbers are composite, an odd `n >= 5` is a probable prime exactly when every round passes, 0 rounds accept every odd `n >= 5`, and a prime is never called composite |
| `Primality.SquaringChain` | src/algorithms/primality.rs:36-46 | modulo a prime, if `a^(d*2^j)` is 1, then `a^d` is 1 or -1, or one of the intermediate squares is -1 |
| `Primality.RoundPassesForPrime` | src/algorithms/primality.rs:29-46 | for a prime `p >= 5`, every witness in `[2, p-2]` passes a round |
| `Primality.MillerRabinSound` | src/algorithms/primality.rs:4-8 | "Composite" means definitely composite: a prime gets `ProbablyPrime` whatever the witnesses and the number of rounds |
| `Gcd.GcdOf` | src/lib.rs:13-22 | Euclid's recursion on naturals yields a common divisor of both arguments |
| `Gcd.GcdOfGreatest` | src/lib.rs:13-22 | every common divisor of `a` and `b` divides `GcdOf(a, b)` |
| `Gcd.GcdOfRemainder` | src/lib.rs:16-20 | one loop step `(a, b) -> (b, a % b)` with the truncating remainder keeps the gcd of the magnitudes |
| `Gcd.Gcd` | src/lib.rs:13-22 | the loop ends; the result's magnitude is the gcd of the magnitudes, and it is the gcd itself for non-negative inputs; it divides both arguments; every common divisor divides it; `gcd(a, 0) == a` |
| `Gcd.GcdZeroLeft` | src/algorithms/brents_rho.rs:28 | `gcd(0, b) == b` for `b > 0`, the value the rho loop sees when the cursors meet |
| `TrialDivision.Factor` | src/algorithms/trial_division.rs:16-43 | `factor` returns nothing for 0 and for any number below 2; for `number >= 1` the factors multiply to `number`, are non-decreasing and are all prime |
| `TrialDivision.DivideOut` | src/algorithms/trial_division.rs:31-38 | the inner loop divides the candidate out completely: what is left is not divisible by it, and the product, the order and the primality of the factors are kept |
| `TrialDivision.PushCandidate` | src/algorithms/trial_division.rs:35-36 | a candidate that divides the remainder is prime, the quotient is smaller, and pushing the candidate keeps the factors sorted, prime and multiplying back |
| `TrialDivision.CandidatePrime` | src/algorithms/trial_division.rs:31-36 | a candidate that divides a number with no divisor below the candidate is prime |
| `TrialDivision.NoDivisorQuotient` | src/algorithms/trial_division.rs:36 | dividing the remainder by a factor brings in no new small divisor |
| `TrialDivision.NextCandidate` | src/algorithms/trial_division.rs:24 | going from 2 to 3, then up by 2, skips only even numbers, which cannot divide the odd remainder |
| `TrialDivision.FactorGeneric` | src/algorithms/trial_division.rs:7-13 | `factor_generic` has the contract of `factor` |
| `TrialDivision.TrialDivisionU128` | src/math.rs:1-20 | the `u128` copy gives nothing for 0 and 1; for `n >= 1` its factors are sorted primes multiplying to `n`, and each fits in a `u128` |
| `TrialDivision.PrimeFactorization` | src/algorithms/mod.rs:137-145 | the only list of primes that multiplies to a prime `p` is `[p]`, so every prime factors to a list of length 1 |
| `Worklist.StripTwos` | src/algorithms/brents_rho.rs:42-45 | one 2 is pushed per halving: `2^k * odd == n` for `k` pushed twos with `odd` odd, which is the unique split of `n` |
| `Worklist.Run` | src/algorithms/brents_rho.rs:49-73 | the `'factorize` loop shared by the rho and Fermat drivers (src/algorithms/fermat.rs:32-56, src/algorithms.rs:57-84) on a FIFO queue; no ensures of its own, its meaning is stated by `Worklist.RunProduct` (factors times queue keep the product), `Worklist.RunTerminates` (proper splits finish within `Potential(queue)` pops), `Worklist.RunAppendsPrimes` and the per-pop lemmas below |
| `Worklist.RunPopOne` | src/algorithms/brents_rho.rs:50-51 | a popped 1 either returns the factors (rho) or is skipped (Fermat) |
| `Worklist.RunPopPrime` | src/algorithms/brents_rho.rs:53-58 | a popped number that the oracle accepts is appended to the factors |
| `Worklist.RunPopSplit` | src/algorithms/brents_rho.rs:61-68 | a split pushes the factor and then its twin `m / f` to the back of the queue |
| `Worklist.RunPopUnsplit` | src/algorithms/brents_rho.rs:71 | a composite that the splitter cannot cut ends the driver with the panic |
| `Worklist.RunStops` | src/algorithms/brents_rho.rs:49-73 | an empty queue returns the factors, and a non-empty one with no pops left runs out of fuel |
| `Worklist.TwinBounds` | src/algorithms/brents_rho.rs:65 | for a proper divisor `f` of `m`, the twin `m / f` is proper too and `f * (m / f) == m` |
| `Worklist.SplitParts` | src/algorithms/fermat.rs:47-48 | a split of a positive `m` has positive factor and twin whose product is `m` |
| `Worklist.RunProduct` | src/algorithms/brents_rho.rs:47-73 | the key invariant: the factors returned multiply to the factors found so far times the queue |
| `Worklist.ProductMoveHead` | src/algorithms/brents_rho.rs:56 | moving the popped number from the queue to the factors keeps the combined product, and a popped 1 changes neither product |
| `Worklist.PushTwo` | src/algorithms/brents_rho.rs:66-67 | pushing the two parts keeps the queue positive, and a proper split brings no 1 into it |
| `Worklist.ProductPushTwo` | src/algorithms/brents_rho.rs:65-67 | replacing the head by `f` and `g` with `f * g == head` keeps the queue's product |
| `Worklist.RunAppendsPrimes` | src/algorithms/brents_rho.rs:53-58 | the driver only appends, and everything it appends passed the primality oracle |
| `Worklist.RunUnsplit` | src/algorithms/brents_rho.rs:61-71 | the driver gives up only on a number that is not 1, that the oracle rejects and that the splitter cannot cut |
| `Worklist.RunUnsplitDivides` | src/algorithms/brents_rho.rs:61-71 | the number it gives up on is a positive divisor of the input |
| `Worklist.RunTerminates` | src/algorithms/brents_rho.rs:49-73 | with proper splits, `Potential(queue)` pops are enough: the loop never runs out |
| `Worklist.RunFuelMonotone` | src/algorithms/brents_rho.rs:49-73 | once the loop has finished, more pops change nothing |
| `Worklist.Drive` | src/algorithms/brents_rho.rs:39-74 | the whole driver: strip the twos, then run the worklist on the odd part; no ensures of its own, its meaning is stated by `Worklist.DriveProduct`, `Worklist.DriveVerdicts`, `Worklist.DriveFinishes` and `Worklist.DriveUnsplit` |
| `Worklist.DriveProduct` | src/algorithms/fermat.rs:25-58 | the factors returned for `n` multiply back to `n` |
| `Worklist.DriveVerdicts` | src/algorithms/fermat.rs:26-40 | each factor is a stripped 2 or a number the oracle accepted |
| `Worklist.DriveFinishes` | src/algorithms/brents_rho.rs:42-73 | with proper splits, `2 * n` pops are enough |
| `Worklist.DriveUnsplit` | src/algorithms/brents_rho.rs:61-71 | the driver gives up only on a divisor of `n` above 1 that the oracle rejects and the splitter cannot cut |
| `Worklist.DrivePrime` | src/algorithms/mod.rs:147-155 | a prime that the oracle accepts comes back alone |
| `Worklist.DrivePowerOfTwo` | src/algorithms/brents_rho.rs:42-51 | a power of two comes back as its twos |
| `BrentsRho.Step` | src/algorithms/brents_rho.rs:14-19 | the closure `g` gives a value in `[0, n)` that differs from `x*x + offset` by a multiple of `n` |
| `BrentsRho.StepIsTruncating` | src/algorithms/brents_rho.rs:18 | the dividend of `g` is never negative, so rug's truncating `%` equals the Euclidean one |
| `BrentsRho.Cursor` | src/algorithms/brents_rho.rs:10-24 | both cursors start at 2 and, after at least one step, lie in `[0, n)` |
| `BrentsRho.CursorNext` | src/algorithms/brents_rho.rs:23-24 | each round moves the slow cursor one step and the fast cursor two |
| `BrentsRho.Probe` | src/algorithms/brents_rho.rs:26-28 | the candidate `gcd(Abs(x - y), n)` lies in `[1, n]` and divides `n` |
| `BrentsRho.ProbeMeet` | src/algorithms/brents_rho.rs:28-31 | when the cursors meet, the candidate is `n`, which is the `Err` |
| `BrentsRho.CursorPeriod` | src/algorithms/brents_rho.rs:23-24 | once the cursor repeats with period `p`, every later value repeats with that period |
| `BrentsRho.CursorRepeats` | src/algorithms/brents_rho.rs:23-24 | among the first `n + 1` steps two values agree (pigeonhole) |
| `BrentsRho.CursorsMeet` | src/algorithms/brents_rho.rs:22-29 | within `n` rounds the slow and the fast cursor hold the same value |
| `BrentsRho.ProbeExits` | src/algorithms/brents_rho.rs:22-29 | the `while possible_factor == 1` loop exits within `n` rounds |
| `BrentsRho.FirstExit` | src/algorithms/brents_rho.rs:22-29 | the first round from `k` on whose candidate is not 1; every round before it left 1 |
| `BrentsRho.SingleSpec` | src/algorithms/brents_rho.rs:30-34 | `Ok(f)` is only ever a proper divisor: `1 < f < n` and `f` divides `n` |
| `BrentsRho.SingleSpecAt` | src/algorithms/brents_rho.rs:22-34 | the single run ends at the first round whose candidate is not 1, and it is `Err` exactly when that candidate is `n` |
| `BrentsRho.Single` | src/algorithms/brents_rho.rs:9-35 | `brents_rho_single` returns `SingleSpec`; an `Ok(f)` is a proper divisor of the number |
| `BrentsRho.SinglePrime` | src/algorithms/brents_rho.rs:30-34 | no offset splits a prime |
| `BrentsRho.SplitFrom` | src/algorithms/brents_rho.rs:61-70 | the offsets from the given one to 99 find at most a proper divisor |
| `BrentsRho.SplitFromFirst` | src/algorithms/brents_rho.rs:61-71 | the retry fails exactly when every offset fails, and otherwise returns what the first successful offset found |
| `BrentsRho.TrySplit` | src/algorithms/brents_rho.rs:61-70 | the `for offset in 1..100` loop returns `SplitFrom(n, 1)`, a proper divisor if any |
| `BrentsRho.RhoSplitter` | src/algorithms/brents_rho.rs:61-70 | the offset retry: the first offset in `1..100` whose single run succeeds, or nothing (the panic); no ensures of its own, its meaning is stated by `BrentsRho.RhoSplitterProper` (only proper divisors) and `BrentsRho.SplitFromFirst` (fails exactly when every offset fails) |
| `BrentsRho.RhoSplitterProper` | src/algorithms/brents_rho.rs:62-67 | the rho splitter only returns proper divisors |
| `BrentsRho.Factor` | src/algorithms/brents_rho.rs:39-74 | `BrentsRho::factor` returns `FactorSpec`: the twos, then the worklist |
| `BrentsRho.Drain` | src/algorithms/brents_rho.rs:47-73 | the `'factorize` loop computes `Run` on its queue |
| `BrentsRho.Pop` | src/algorithms/brents_rho.rs:49-70 | one pass returns on a 1, keeps a probable prime or pushes the two parts of a split, and spends a pop while keeping the loop's result |
| `BrentsRho.FactorFinishes` | src/algorithms/brents_rho.rs:39-74 | `BrentsRho::factor` never loops: it returns factors or panics |
| `BrentsRho.FactorProduct` | src/algorithms/brents_rho.rs:39-74 | the factors multiply back to `n` |
| `BrentsRho.FactorVerdicts` | src/algorithms/brents_rho.rs:53-58 | each factor is at least 2, and is a stripped 2 or a number that Miller-Rabin accepted |
| `BrentsRho.FactorPrime` | src/algorithms/mod.rs:147-155 | a prime comes back as a list of length 1 |
| `BrentsRho.FactorPowerOfTwo` | src/algorithms/brents_rho.rs:42-51 | a power of two returns at the popped 1 with all its twos |
| `BrentsRho.FactorUnsplit` | src/algorithms/brents_rho.rs:61-71 | the panic happens only on a composite divisor of `n` that Miller-Rabin rejected and all 99 offsets failed to split |
| `Fermat.CeilingRoot` | src/algorithms/fermat.rs:9-17 | `ceiling_root` is one past the root of a perfect square and the floor root of anything else |
| `Fermat.CeilRoot` | src/algorithms/fermat.rs:9-17 | the true ceiling root: the least `a` with `a^2 >= n` |
| `Fermat.CeilingRootOffByOne` | src/algorithms/fermat.rs:9-17 | for `n >= 1`, `ceiling_root` is the true ceiling plus one on squares and minus one elsewhere |
| `Fermat.HalfIsHit` | src/algorithms/fermat.rs:44-46 | at `a = (m+1)/2` the buffer `a^2 - m` of an odd `m` is the square of `(m-1)/2`, so the search is bounded |
| `Fermat.FirstSquareFrom` | src/algorithms/fermat.rs:44-54 | the search stops at the least `a' >= a` with `a'^2 - m` a square, at most `(m+1)/2` |
| `Fermat.SquareDifference` | src/algorithms/fermat.rs:46-48 | a hit gives `factor = a - b` and `twin = m / factor = a + b`, with `factor * twin == m` exactly |
| `Fermat.StartInRange` | src/algorithms/fermat.rs:42 | both roots of an odd `m >= 3` are at most `(m+1)/2` |
| `Fermat.FermatFactor` | src/algorithms/fermat.rs:42-48 | the factor found divides `m` and lies in `[1, (m+1)/2]` |
| `Fermat.TrivialOnlyAtHalf` | src/algorithms/fermat.rs:47 | the split is `1 * m` only at `a = (m+1)/2` |
| `Fermat.MiddleHit` | src/algorithms/fermat.rs:44-46 | a factorization `d * e` of odd `m` with `1 < d <= e` puts a hit at `(d+e)/2` below `(m+1)/2` |
| `Fermat.FermatFactorProper` | src/algorithms/fermat.rs:42-48 | as written, the search splits properly every odd `m == d * e` with `1 < d < e` |
| `Fermat.PrimeSquareSplitsTrivially` | src/algorithms/fermat.rs:12-13 | as written, the square of an odd prime is split into 1 and itself |
| `Fermat.SmallDivisorOfPrimeSquare` | src/algorithms/fermat.rs:47-48 | the only split `f * g == p^2` with `f < g` has `f == 1` |
| `Fermat.Search` | src/algorithms/fermat.rs:42-54 | the `a += 1` loop ends for every odd `number >= 3`, with `factor == FermatFactor(number)` and `factor * twin == number` |
| `Fermat.FermatSplitter` | src/algorithms/fermat.rs:42-51 | the `a += 1` search from `ceiling_root`, giving `a - root(b)` at the first square `b = a^2 - m`; no ensures of its own, its meaning is stated by `Fermat.FermatSplitterSplits`, `Fermat.FermatFactor` and `Fermat.FermatFactorProper` |
| `Fermat.FermatSplitterSplits` | src/algorithms/fermat.rs:47-48 | the search's factor divides the number |
| `Fermat.Factor` | src/algorithms/fermat.rs:21-59 | `Fermat::factor`, within `fuel` pops, returns `FermatSpec` |
| `Fermat.Drain` | src/algorithms/fermat.rs:32-56 | the `'factorize` loop computes `Run` with a popped 1 skipped |
| `Fermat.Pop` | src/algorithms/fermat.rs:33-51 | one pass skips a 1, keeps a probable prime, or pushes the two parts; the queue stays odd and the loop's result is kept |
| `Fermat.FermatProduct` | src/algorithms/fermat.rs:21-59 | the factors multiply back to `n` |
| `Fermat.FermatVerdicts` | src/algorithms/fermat.rs:36-40 | each factor is at least 2, and is a stripped 2 or a number that Miller-Rabin accepted |
| `Fermat.FermatNeverUnsplit` | src/algorithms/fermat.rs:44-55 | the search always finds a split, so the driver never gives up on a number |
| `Fermat.FermatPrime` | src/algorithms/mod.rs:165-170 | a prime comes back as a list of length 1 |
| `Fermat.NineComposite` | src/algorithms/mod.rs:107-115 | Miller-Rabin rejects 9 whatever its witnesses |
| `Fermat.PrimeSquareStalls` | src/algorithms/fermat.rs:32-51 | as written, the square of an odd prime that Miller-Rabin rejects is requeued forever, so every pop bound runs out |
| `Fermat.NineStalls` | src/algorithms/fermat.rs:9-17 | as written, `Fermat::factor(9)` never returns |
| `Fermat.FixedFactor` | src/algorithms/fermat.rs:42-48 | the search started at the true ceiling root finds a divisor in `[1, (m+1)/2]` |
| `Fermat.FixedFactorProper` | src/algorithms/fermat.rs:9-17 | started at the true ceiling root, the search splits every odd `d * e` with `1 < d <= e` properly, prime squares included |
| `Fermat.CompositeSplits` | src/algorithms/fermat.rs:42-48 | the corrected search splits every odd composite properly |
| `Fermat.FixedFinishes` | src/algorithms/fermat.rs:21-59 | the corrected driver always returns, with a factorization of `n` into twos and numbers that Miller-Rabin accepted |
| `Legacy.Sort` | src/algorithms.rs:85 | `factors.sort()` gives a sorted permutation of its input |
| `Legacy.SortedUnique` | src/algorithms.rs:85 | two sorted permutations of one list are equal, so any sorting algorithm gives `Sort`'s result |
| `Legacy.SortSorted` | src/algorithms.rs:85 | sorting a sorted list leaves it as it is |
| `Legacy.RepeatSorted` | src/algorithms.rs:58-60 | a list of twos is sorted, so the early return that skips the sort loses nothing |
| `Legacy.Factor` | src/algorithms.rs:42-87 | the older `brents_rho` returns `LegacySpec`: the newer driver's factors, sorted, or its panic |
| `Legacy.LegacyAgrees` | src/algorithms.rs:42-87 | the older copy finishes; its factors are a sorted permutation of the newer copy's, and it panics exactly as the newer copy does |
| `Legacy.LegacyFactors` | src/algorithms.rs:42-87 | its factors multiply back to `n`, and each is a 2 or a number Miller-Rabin accepted |
| `Legacy.LegacyPrime` | src/algorithms.rs:230-235 | a prime comes back as a list of length 1 |
| `Sieves.SurvivesStep` | src/sieve.rs:11-12 | the pass for `b` clears exactly the proper multiples of `b` |
| `Sieves.SurvivesAll` | src/sieve.rs:10-14 | after the passes for every `b` up to `len`, the surviving indices are exactly the primes |
| `Sieves.Sieve.constructor` | src/sieve.rs:6-17 | `Sieve::new(len)` makes `len + 1` flags, and flag `i` is set exactly when `i` is prime |
| `Sieves.ClearMultiples` | src/sieve.rs:11-13 | the inner loop clears `2b, 3b, ...` up to `len` and never `b` itself |
| `Sieves.ClearStep` | src/sieve.rs:12 | clearing the multiple `k * b` moves the cleared range on to `(k+1) * b` |
| `Sieves.Sieve.IsPrimeAt` | src/sieve.rs:26-28 | `is_prime(n)` is true exactly when `n` is prime, for `n` in the table |
| `Sieves.Sieve.Primes` | src/sieve.rs:19-24 | `primes()` yields exactly the prime indices of the table, in strictly increasing order |
| `Sieves.SetIndices` | src/sieve.rs:20-23 | the indices of the set flags, strictly increasing, and nothing else |
| `Algorithms.ErrorText` | src/algorithms/mod.rs:45-51 | the message is `unknown algorithm '<name>'`, and the name can be read back from between the quotes |
| `Algorithms.ErrorTextGivesName` | src/algorithms/mod.rs:45-51 | two errors with the same message are the same error: the message determines the unknown name |
| `Algorithms.Display` | src/algorithms/mod.rs:24-36 | the display names of the three algorithms; no ensures of its own, its meaning is stated by `Algorithms.UpperDisplay` and `Algorithms.ParseDisplay` (display then parse gives back trial division and Fermat) and `Algorithms.DisplayBrentsRhoUnknown` |
| `Algorithms.Upper` | src/algorithms/mod.rs:57 | `to_uppercase` on ASCII text keeps the length and upper-cases each character in place; `Algorithms.UpperIdempotent` shows it is idempotent |
| `Algorithms.UpperChar` | src/algorithms/mod.rs:57 | on ASCII, upper-casing maps `a`-`z` to `A`-`Z` and keeps every other character |
| `Algorithms.UpperIdempotent` | src/algorithms/mod.rs:57 | upper-casing twice is upper-casing once |
| `Algorithms.FromStr` | src/algorithms/mod.rs:53-64 | each variant is parsed exactly when the upper-cased input is one of its spellings; otherwise `UnknownAlg` carries the input as given |
| `Algorithms.FromStrIgnoresCase` | src/algorithms/mod.rs:57-60 | two names that agree once upper-cased parse alike |
| `Algorithms.FromStrOfUpper` | src/algorithms/mod.rs:57-61 | upper-casing first changes only the name an error reports |
| `Algorithms.FermatSpellings` | src/algorithms/mod.rs:60 | "fermat", "Fermat's" and "FERMATS" all parse to Fermat |
| `Algorithms.UpperDisplay` | src/algorithms/mod.rs:29-33 | the displayed names upper-case to "TRIAL DIVISION", "BRENT'S RHO" and "FERMAT" |
| `Algorithms.ParseDisplay` | src/algorithms/mod.rs:29-60 | parsing the displayed name of trial division or of Fermat's method gives the same algorithm back |
| `Algorithms.DisplayBrentsRhoUnknown` | src/algorithms/mod.rs:59 | as written, "Brent's Rho" does not parse: it is reported as an unknown algorithm |
| `Algorithms.FixedFromStr` | src/algorithms/mod.rs:59 | with "BRENT'S RHO" added to the list, the parser is unchanged on every other input |
| `Algorithms.FixedParseDisplay` | src/algorithms/mod.rs:29-60 | with the corrected list, every displayed name parses back to its algorithm |
| `KnownAnswers.FifteenRound` | src/algorithms/mod.rs:107-115 | no witness in `[2, 13]` passes a Miller-Rabin round on 15 |
| `KnownAnswers.TwentyOneRound` | src/algorithms/mod.rs:162 | no witness in `[2, 19]` passes a round on 21, the odd part of 42 |
| `KnownAnswers.MillerRabinLowNumbers` | src/algorithms/mod.rs:97-115 | `miller_rabin(_, 40)` accepts the ten low primes and rejects the ten low composites, whatever the witnesses |
| `KnownAnswers.TwentyOneOffsetOne` | src/algorithms/brents_rho.rs:28-31 | with offset 1 the cursors on 21 meet in the first round, and that offset fails |
| `KnownAnswers.TwentyOneOffsetTwo` | src/algorithms/brents_rho.rs:22-34 | with offset 2 the second round on 21 finds 3 |
| `KnownAnswers.FifteenSplits` | src/algorithms/brents_rho.rs:61-70 | offset 1 splits 15 into 3 and 5 |
| `KnownAnswers.TwentyOneSplits` | src/algorithms/brents_rho.rs:61-70 | the retry loop splits 21 at offset 2 |
| `KnownAnswers.FifteenFermat` | src/algorithms/fermat.rs:42-48 | the search on 15 finds 3 at `a = 4` |
| `KnownAnswers.TwentyOneFermat` | src/algorithms/fermat.rs:42-48 | the search on 21 finds 3 at `a = 5` |
| `KnownAnswers.BrentsRhoLowComposites` | src/algorithms/mod.rs:157-163 | `BrentsRho::factor` gives `[2,2,3]`, `[3,5]`, `[2,2,2,5]` and `[2,3,7]` for 12, 15, 40 and 42 |
| `KnownAnswers.FermatLowComposites` | src/algorithms/mod.rs:172-177 | `Fermat::factor` gives the same lists for 12, 15, 40 and 42 |
| `KnownAnswers.LegacyLowComposites` | src/algorithms.rs:237-243 | the older `brents_rho` gives the same lists |

## Left out

- I/O and glue: `main.rs` (command line, timing, printing, the closing assertion on the product), the
  benchmarks and the `eprintln!` retry messages of src/algorithms.rs:76-80.
- Randomness: the witnesses are the parameter `draw`. No probabilistic claim is made, such
  as the `4^-k` bound on false positives. A number that only passed Miller-Rabin is proved
  to be a probable prime, not a prime.
- The high primes and composites of src/algorithms/mod.rs:117-135 are not proved. Their
  verdicts depend on the twelve-digit numbers and on the actual witnesses.
- `Sieve::new(100).primes()` giving the 25 primes below 100 (src/sieve.rs:37-53) is not
  proved as a literal list. It follows from `Sieves.Sieve.Primes`, but enumerating 101
  primality facts is too costly for the verifier.
- `factor(0)` of both worklist drivers does not terminate, because 0 is always even. Both
  drivers require `n >= 1`, and so does `factor_out_twos`'s model (`n != 0`, even). Trial
  division handles 0 and negative numbers, and so does its model.
- BrentsRho.Factor, Fermat.Factor, Legacy.Factor: require `n >= 1`, so negative numbers
  are excluded. The source accepts any `Integer` and panics on a negative one: its odd part
  stays negative and Miller-Rabin calls it composite (src/algorithms/primality.rs:17); Fermat
  then takes `root(2)` of a negative number (src/algorithms/fermat.rs:10), which panics; rho
  on -1 gets `gcd(0, -1) == -1`, the number itself, for every offset, and reaches the panic
  of src/algorithms/brents_rho.rs:71 (src/algorithms.rs:83 in the older copy).
- Fermat.Factor: carries an explicit bound `fuel` on the number of pops. The source's loop
  has none and does not end on odd prime squares (`Fermat.PrimeSquareStalls`).
- TrialDivision.Factor: the candidates are unbounded integers. In the source they are
  `i32`, which would overflow only after a candidate passes 2^31 - 1, that is only for a
  number with a prime factor that large. The `u128` copy is bounded and modelled with its
  bound (`TrialDivision.TrialDivisionU128`).
- Algorithms.UpperChar: only ASCII upper-casing is modelled. `to_uppercase` also maps
  non-ASCII letters, some to several characters.
- Algorithms.FromStr: its contract holds for the ASCII upper-casing only. With Rust's full
  `to_uppercase`, a non-ASCII input such as `"fermatſ"` (long s) upper-cases to `"FERMATS"`
  and parses as Fermat, where the model reports `UnknownAlg`.
- The `Factorize` trait is not modelled as an interface. Each `factor` is a method of its
  own module.
- The tests in src/lib.rs:24-126 are not modelled. They duplicate the tests of
  src/algorithms/mod.rs.

## Findings

| source | as written | input that shows it | evidently intended | confidence | as-written member | corrected member |
|---|---|---|---|---|---|---|
| src/algorithms/fermat.rs:9-17 | `ceiling_root` returns `isqrt(n) + 1` on a perfect square, so the search on `p^2` starts past `p` and ends on the trivial split `1 * p^2`, which is requeued forever | `Fermat::factor(9)`: Miller-Rabin rejects 9, the search starts at 4 and splits 9 as `1 * 9`, and 9 is queued again | the ceiling of the square root, `isqrt(n)` on a square, so that `a = p` splits `p^2` as `p * p` | not executed | `Fermat.NineStalls` | `Fermat.FixedFinishes` |
| src/algorithms/mod.rs:59 | the spellings of Brent's rho include "BRENTS'S RHO" but not "BRENT'S RHO", the upper-cased `Display` name | `"Brent's Rho".parse::<Alg>()` is `Err(UnknownAlg("Brent's Rho"))` | "BRENT'S RHO" in the list, so that every displayed name parses back | not executed | `Algorithms.DisplayBrentsRhoUnknown` | `Algorithms.FixedParseDisplay` |

The as-written Fermat driver (`Fermat.Factor`) keeps the source's `ceiling_root`, because
that is what the program does. The corrected driver is `Fermat.FixedSpec`, with its splitter
`Fermat.FixedSplitter`.
