# PasswordGenerator: the generation engine in Dafny

This project models the password generation engine of PasswordGenerator and
proves properties of it. The engine is `Generator.Generate` in
`internal/generator/password.go`, together with the request record and the
default alphabets of `internal/config/password.go`. The model also covers the
older copy of the algorithm in `main.go` (`generatePassword`) and the
request-building rules of that file's POST handler.

`Generate` runs in four steps:

1. It validates the length (1 to 1000) and requires at least one category.
2. It assembles the alphabet list in the order Uppercase, Lowercase, Numbers,
   Symbols. A non-empty `CustomSymbols` replaces the default symbols. The list
   is then appended a second time.
3. It seeds one byte from each of the first `min(len(charsets), Length)`
   alphabets. A position is chosen with `b % Length` and collisions are
   resolved by linear probing. The remaining positions are then filled from
   the concatenation of all alphabets.
4. It runs a Fisher-Yates shuffle.

Modules, one per concept:

- `Bytes`: Go bytes and ASCII string literals.
- `Config`: `PasswordConfig` and the four alphabets.
- `Random`: the random source.
- `Charsets`: alphabet lists, `strings.Join`, membership and coverage.
- `Slots`: counting buffer positions for the probe and the fill.
- `Generator`: the engine itself.
- `Legacy`: `main.go`.

**Random source.** Each call to `crypto/rand.Read` reads one byte, and that
read either fails or yields a byte in 0..255. The model does not implement the
source. Every method takes it as a parameter `src: nat -> Draw`, where read
number k of one generation returns `src(k)`. Every property below is
therefore proved for every possible sequence of random outcomes. The methods
also return `drawn`, the number of reads they made. This is what lets the
contracts say "no read happens before validation" and "the call succeeds
exactly when the first `2 * Length - 1` reads succeed".

**Bytes.** Go indexes strings by byte, so alphabets and passwords are
`seq<byte>`, with `byte` the integers 0..255. Go's `%` truncates toward zero
while Dafny's is Euclidean. Every `%` here has non-negative operands, so the
two agree.

**Arithmetic of the choices.** The code picks positions and bytes with
`byte % n`, resolves a collided seed position by linear probing, and appends
the list of selected alphabets twice before seeding and filling. The model
follows it in all three and claims nothing about uniformity.

## Model

| member | source | states |
|---|---|---|
| `Config.DefaultAlphabetsNonEmpty` | internal/config/password.go:12-17 | each of the four default alphabets has at least one byte |
| `Config.UppercaseIsAToZ` | internal/config/password.go:13 | `Uppercase` is exactly the 26 bytes A..Z in order |
| `Config.LowercaseIsAToZ` | internal/config/password.go:14 | `Lowercase` is exactly the 26 bytes a..z in order |
| `Config.NumbersAreDigits` | internal/config/password.go:15 | `Numbers` is exactly the 10 bytes 0..9 in order |
| `Config.SymbolsAreNotAlphanumeric` | internal/config/password.go:16 | `Symbols` has 26 bytes and none of them is a letter or a digit |
| `Config.SymbolsHaveNoRepeats` | internal/config/password.go:16 | no byte occurs twice in `Symbols` |
| `Config.DefaultAlphabetsHaveNoRepeats` | internal/config/password.go:12-17 | no default alphabet repeats a byte |
| `Config.DefaultAlphabetsDisjoint` | internal/config/password.go:12-17 | the four default alphabets are pairwise disjoint |
| `Charsets.Join` | internal/generator/password.go:94 | a byte is in `strings.Join(charsets, "")` exactly when it is in one of the alphabets; the join is empty exactly when every alphabet is |
| `Charsets.DoubledUnion` | internal/generator/password.go:52-67 | listing the alphabets twice leaves their union unchanged |
| `Charsets.PermutationKeepsMembership` | internal/generator/password.go:105-113 | rearranging a password keeps "every byte comes from the alphabets" and "covers an alphabet" |
| `Slots.FreeSlotExists` | internal/generator/password.go:86-88 | while fewer than `Length` positions are used, a free position exists for the probe to stop at |
| `Generator.SelectedAlphabets` | internal/generator/password.go:29-45 | the list has one non-empty alphabet per set flag, and it is empty exactly when no flag is set |
| `Generator.SelectedAlphabetsInOrder` | internal/generator/password.go:29-45 | each selected category's alphabet appears at the index given by the order Upper, Lower, Number, Symbol; a non-empty custom symbol string replaces the default symbols |
| `Generator.SelectedAlphabetsIndexed` | internal/generator/password.go:29-45 | every entry of the list belongs to some selected category |
| `Generator.SelectedAlphabetsUnion` | internal/generator/password.go:29-45 | a byte is in some listed alphabet exactly when it is in the alphabet of a selected category |
| `Generator.PrepareCharsets` | internal/generator/password.go:17-71 | length <= 0 fails with `InvalidLength` and length > 1000 with `LengthTooLarge`; with a valid length, no flag fails with `NoCharacterTypes`; otherwise the list is the selected alphabets twice over, so it is never empty and the check at lines 69-71 never fires |
| `Generator.Probe` | internal/generator/password.go:85-88 | the probe terminates on a free position in the buffer, and every position it passed over is used |
| `Generator.SeedCoverage` | internal/generator/password.go:73-91 | exactly `min(len(charsets), Length)` distinct positions are used, with one read each; the k-th alphabet has a byte at a used position; unused positions are still 0; a failed read aborts |
| `Generator.FillRemaining` | internal/generator/password.go:93-103 | seeded positions are unchanged; every other position holds a byte of the joined alphabets; there is one read per unseeded position; a failed read aborts |
| `Generator.SeedAndFill` | internal/generator/password.go:73-103 | after seeding and filling, all `Length` positions hold bytes from the alphabets and each of the first `min(len(charsets), Length)` alphabets is covered; there are exactly `Length` reads; a failed read aborts |
| `Generator.Shuffle` | internal/generator/password.go:105-113 | the result is a permutation of the input (same multiset); there are `len - 1` reads; a failed read aborts |
| `Generator.BuildPassword` | internal/generator/password.go:73-115 | it succeeds exactly when the first `2 * Length - 1` reads succeed; on success the output has `Length` bytes, all from the alphabets, and covers each of the first `min(len(charsets), Length)` alphabets; on failure it returns no buffer and the last read made is the first failing one |
| `Generator.Generate` | internal/generator/password.go:17-116 | validation errors come before any read; success happens exactly when the request is valid and the first `2 * Length - 1` reads succeed; a successful result has exactly `Length` bytes, each from a selected alphabet (with the custom-symbols override); each of the first `Length` selected categories, in the order Upper, Lower, Number, Symbol, has a byte in the result, so all of them do when `Length` >= their number; a read failure returns no password |
| `Legacy.GeneratePassword` | main.go:33-102 | it returns "" with no read when no category is selected or `Length` <= 0; for any positive length with a category it returns exactly `Length` bytes when the first `2 * Length - 1` reads succeed, and "" otherwise; every byte comes from a selected alphabet; a non-empty result covers each of the first `Length` selected categories |
| `Legacy.NormaliseLength` | main.go:118-121 | 8 and 12 are kept and every other length becomes 12 |
| `Legacy.ConfigFromForm` | main.go:118-133 | the length is the parsed length when that is 8 or 12 and 12 otherwise; a category flag is set exactly when its form field is the string "true"; the custom symbols are passed through |
| `Legacy.HandlePost` | main.go:113-138 | the response body is "", or a password whose length is the parsed length when that is 8 or 12 and 12 otherwise, with bytes from the selected alphabets, covering every selected category; it is non-empty exactly when some flag is "true" and the reads succeed |

## Left out

- Randomness quality is not modelled. Nothing is claimed about uniformity, the modulo bias of `b % n` or the correlation that comes from using one byte for both position and index. The model reproduces only the arithmetic.
- `crypto/rand` itself is not modelled. Its outcomes are a parameter, and each property holds for all of them.
- Error messages are not modelled. The `fmt.Errorf` texts become the error kinds `InvalidLength`, `LengthTooLarge`, `NoCharacterTypes` and `RandomReadFailed`. The particular `rand.Read` error value is not carried.
- Go's 64-bit `int` is not modelled; lengths are unbounded integers. `Generate` caps the length at 1000, so nothing overflows there. In `generatePassword`, a huge length would make `make` fail at run time, and that failure is not modelled.
- `main.go` declares its own copies of the four alphabets. They are byte-for-byte equal to those in `internal/config/password.go`, so the model reuses the `Config` constants.
- `Legacy.ConfigFromForm`: `strconv.Atoi` and `strings.TrimSpace` are library calls. The parsed length and the trimmed custom symbols are taken as parameters. The parsed length is whatever `strconv.Atoi` returned, including on error, and can be any integer; every value other than 8 or 12 becomes 12.
- The rest of the POST handler is not modelled: `ParseForm` errors, the GET branch, template rendering, logging and response headers. These are HTTP plumbing.
- `internal/handler/password.go`, `internal/middleware/middleware.go` (rate limiting, headers, logging, CSRF) and `cmd/server/main.go` (process wiring, `embed.FS`, token generation) are HTTP and process plumbing over library calls, and are not modelled.
- `cmd/server/static/js/app.js` is browser UI and is not modelled.
- The duplicate-password test is not modelled because it is probabilistic. The `[8, 128]` length check is not modelled because it exists only in a test.
- `Generator.SeedCoverage` requires every alphabet in the list to be non-empty, and `Generator.FillRemaining` requires the joined alphabet to be non-empty unless every position is already seeded. In those cases Go's `%` would panic at run time, and that panic is not modelled. No caller passes such input: the default alphabets are non-empty, and an empty custom string is replaced by the defaults.
