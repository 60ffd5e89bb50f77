# Number classification API, modelled in Dafny

This project models the core of a small serverless HTTP endpoint that takes an
integer in the `number` query parameter and answers with its mathematical
properties: whether it is prime, perfect or an Armstrong number, its parity,
its digit sum, and a fun fact fetched from a numeric-trivia web service. All of
it lives in `lambda_function.py`.

- `decimal.dfy` (module `Decimal`): the decimal notation `str(n)` of a
  non-negative integer as a digit list, proved to be a bijection between
  numbers and canonical digit lists. It also gives the string that goes into
  the trivia URL.
- `classifier.dfy` (module `Classifier`): `is_prime` is an imperative method.
  It does trial division by 2, 3 and then 5, 7, 9, … up to an exact integer
  square root, and is proved equal to "n ≥ 2 and no divisor in [2, n)".
  `is_armstrong` and `is_perfect` are non-recursive predicates over the
  recursive sums `PowerSum` and `DivisorSum`; the digit sum is a function
  over the recursive `SumOfDigits`. Their contracts tie each to an
  independent definition: a positional power sum of the digits, the full sum
  of proper divisors, and a positional digit sum (with bounds and congruence
  modulo 9). The
  `properties` list is specified by a predicate that fixes it uniquely.
- `handler.dfy` (module `Handler`): `lambda_handler` as a method. It covers
  parameter extraction, the two 400 paths, the 200 path with the
  classification, and the fun-fact lookup, with the CORS headers on every
  path. Two collaborators the handler cannot see into are parameters:
  `convert` is `int(float(s))`, which returns a number or the exception it
  raises, and `fetch` is one HTTP GET. The method also returns the list of
  URLs it requested, so the contract says when the network is used.
- `wrappers.dfy`: `Option` and `Result`.

Python's `%` with a positive divisor agrees with Dafny's Euclidean `%`. Every
`%` in the source has a positive divisor, so parity (`-3` is odd) and trial
division carry over unchanged.

The handler's `except` branch (lambda_function.py:61-73) answers an
unparsable number with 400 "Invalid number format", but it catches only
`ValueError` (see Findings). The model keeps the code's behaviour in
`Handler.ValidateAsWritten`, and the handler uses the corrected validation,
`Handler.Validate`.

## Model

| member | source | states |
|---|---|---|
| `Decimal.Digits` | lambda_function.py:22 | the digit list of `str(n)` is non-empty, every entry is below 10, and it starts with 0 only for n = 0 |
| `Decimal.ValueOfDigits` | lambda_function.py:22 | reading the digits of `str(n)` back in base ten gives n |
| `Decimal.DigitsOfValue` | lambda_function.py:22 | every canonical digit list (no leading zero) is `str` of the number it denotes, so digit lists and numbers correspond one to one |
| `Decimal.DecimalString` | lambda_function.py:37 | `str(n)` has one character per digit, and character i is the '0'..'9' spelling of digit i of n |
| `Decimal.DecimalStringInjective` | lambda_function.py:37 | distinct non-negative numbers have distinct decimal strings |
| `Classifier.Isqrt` | lambda_function.py:13 | the trial-division bound r satisfies r*r <= n < (r+1)*(r+1) |
| `Classifier.IsPrime` | lambda_function.py:6-16 | the result is true exactly when n >= 2 and no d with 2 <= d < n divides n; this covers false below 2, true for 2 and 3, and false for multiples of 2 or 3 |
| `Classifier.DivisorRefutesPrime` | lambda_function.py:11-15 | a divisor found between 2 and n-1 makes n not prime, which justifies each `return False` |
| `Classifier.FirstCandidate` | lambda_function.py:11-13 | once 2 and 3 are ruled out, no d in [2, 5) divides n, so trial division may start at 5 |
| `Classifier.TrialStep` | lambda_function.py:13-15 | for odd n, once the odd candidate i fails to divide n, no d in [2, i+2) divides n, because the even candidates are covered by 2 |
| `Classifier.CandidateBelowN` | lambda_function.py:13-15 | a candidate up to the root bound is below n, so a candidate that divides n is a proper divisor |
| `Classifier.CandidatePastRoot` | lambda_function.py:13-16 | when the loop passes the root bound, the next candidate's square exceeds n |
| `Classifier.NoDivisorBelowRoot` | lambda_function.py:13-16 | if no d in [2, i) divides n and i*i > n, n is prime, which justifies stopping at the square root |
| `Classifier.PrimeExamples` | lambda_function.py:7-12 | -7, 0, 1 and 4 are not prime; 2 and 3 are |
| `Classifier.PowerSumIsPositional` | lambda_function.py:22-24 | the sum of digit**k over `str(n)` equals the sum of k-th powers of the digits at each decimal weight of n |
| `Classifier.IsArmstrong` | lambda_function.py:19-24 | false for every negative n; holds iff n >= 0 and n, with k digits, equals the sum of the k-th powers of its digits taken position by position |
| `Classifier.ArmstrongSmallCases` | lambda_function.py:20-24 | no negative number is Armstrong; every n in 0..9 is |
| `Classifier.ArmstrongExample153` | lambda_function.py:19-24 | 153 is an Armstrong number |
| `Classifier.ArmstrongExample154` | lambda_function.py:19-24 | 154 is not an Armstrong number |
| `Classifier.ArmstrongExample9474` | lambda_function.py:19-24 | 9474 is an Armstrong number and -5 is not |
| `Classifier.ProperDivisorAtMostHalf` | lambda_function.py:30 | every divisor d of n with 1 <= d < n satisfies d <= n // 2 |
| `Classifier.HalfRangeIsAliquot` | lambda_function.py:30 | for n >= 1, the divisor sum over [1, n // 2] equals the sum of all proper divisors |
| `Classifier.IsPerfect` | lambda_function.py:27-30 | the half-range test holds iff n >= 1 and the sum of all proper divisors of n is n (false for every n < 1) |
| `Classifier.PrimeIsNotPerfect` | lambda_function.py:27-30 | a prime is never reported perfect: its only proper divisor is 1 |
| `Classifier.PerfectExample6` | lambda_function.py:27-30 | 6 is perfect; 0 is not |
| `Classifier.PerfectExample28` | lambda_function.py:27-30 | 28 is perfect |
| `Classifier.PerfectExample12` | lambda_function.py:27-30 | 12 is not perfect: its divisors up to 6 sum to 16 |
| `Classifier.DigitSumCongruent` | lambda_function.py:84 | m minus its digit sum is a multiple of 9 |
| `Classifier.DigitSumBounded` | lambda_function.py:84 | the digit sum of m is at most m, and zero only for m = 0 |
| `Classifier.DigitSum` | lambda_function.py:84 | the digit sum of `str(abs(n))` equals the sum of the digits of abs(n) taken position by position; it is at most abs(n), is 0 exactly for n = 0, and differs from abs(n) by a multiple of 9 |
| `Classifier.DigitSumIgnoresSign` | lambda_function.py:84 | n and -n have the same digit sum |
| `Classifier.DigitSumExamples` | lambda_function.py:84 | the digit sum of -123 is 6 and of 0 is 0 |
| `Classifier.Parity` | lambda_function.py:75 | the entry is "odd" or "even"; "odd" exactly when n % 2 is 1, which for a negative n is the parity of abs(n) |
| `Classifier.ListsProperties` | lambda_function.py:75-77 | a property list for n has one or two entries; it holds "odd" iff n % 2 != 0 and "even" iff n % 2 == 0; it holds "armstrong" iff n is Armstrong, and only at index 0 |
| `Classifier.PropertyListUnique` | lambda_function.py:75-77 | the list for n is determined by n: length 1 or 2, parity entry last |
| `Classifier.PropertiesOf153` | lambda_function.py:75-77 | the list for 153 is ["armstrong", "odd"] |
| `Handler.NumberParam` | lambda_function.py:45-46 | an absent, null or empty parameter map yields no value; otherwise the value is present exactly when the map has the key `number`, and is that entry |
| `Handler.Validate` | lambda_function.py:45-73 | MissingParameter iff the parameter map or the key is absent or the value is ""; InvalidFormat(s) iff the value s is non-empty and `int(float(s))` raises; success with n iff it converts to n |
| `Handler.ErrorResponse` | lambda_function.py:48-73 | each client error is a 400 with the three CORS headers; a missing number gets error "No number provided." and no `invalid_input`; an invalid one gets error "Invalid number format" with `invalid_input` equal to the raw string |
| `Handler.TriviaUrl` | lambda_function.py:37 | the URL is the service address, then exactly `str(n)`, then "/math"; with `DecimalStringInjective`, the URL identifies n |
| `Handler.GetFunFact` | lambda_function.py:33-41 | a negative number gets "Fun fact not available for negative numbers." and no request is made; otherwise exactly one request goes to the number's URL, whose body is returned, or "Fun fact not available." if the request fails in any way |
| `Handler.LambdaHandler` | lambda_function.py:44-96 | every response carries the three CORS headers; a validation failure yields its 400 response and makes no request; otherwise the status is 200 and the body holds the number, primality, perfection, the property list, the digit sum and the fun fact, each as specified above |
| `Handler.ValidateAsWritten` | lambda_function.py:59-73 | the source's validation escapes with an exception exactly when `int(float(s))` raises OverflowError, and agrees with the corrected validation everywhere else |
| `Handler.InfinityEscapesAsWritten` | lambda_function.py:59-73 | for `number=inf` the source's validation ends in an uncaught exception; the corrected one answers InvalidFormat("inf") |

## Findings

| source | as written | input that shows it | evidently intended | confidence | as-written member | corrected member |
|---|---|---|---|---|---|---|
| lambda_function.py:59-73 | only `ValueError` is caught around `int(float(number_str))`; `float` accepts "inf", and `int` of an infinity raises `OverflowError`, which escapes the handler | `?number=inf` (likewise `-inf`, `1e999`) | a 400 "Invalid number format" response with `invalid_input` and the CORS headers, as for every other string that is not a number | high; not executed | `Handler.InfinityEscapesAsWritten` | `Handler.LambdaHandler` |

## Left out

- The HTTP request in `get_fun_fact` (lambda_function.py:36-41) is the `fetch` parameter. The 5-second timeout, UTF-8 decoding and the exceptions it can raise all collapse into the `Failed` outcome.
- `int(float(s))` (lambda_function.py:60) is the `convert` parameter. Float parsing and truncation toward zero (so "7.9" becomes 7) belong to Python's library and are not modelled. The model keeps only which of a number, `ValueError` or `OverflowError` comes out.
- `Classifier.IsPrime`: the loop bound is the exact integer square root `Isqrt`, not `int(math.sqrt(n))`. For n beyond the precision of a double the float bound can differ. The model does not capture that.
- `json.dumps` and the shape of the AWS event and response dictionaries (lambda_function.py:45, 56, 69, 95) are records: `Event`, `Response`, `Body`. The serialised text is not modelled.
- The query-string map holds strings. A missing `queryStringParameters` key and a null one are both `None`.
- Running time is not modelled. The source's loops in `is_prime` (up to the square root) and `is_perfect` (up to n // 2) are specified by what they compute.
