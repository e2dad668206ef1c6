# Credential check of `meu-primeiro-auth`, modelled in Dafny

This project models the authentication core of `auth/auth.go`:

- the in-memory user store (`RepositorioFake`) and its lookup `BuscaUsuario`;
- the service `ServicoAutenticacao` with `Login` and its validations
  `VerificarValor`, `ValidateEmpty` and `validateMaxLength`.

`Login` checks the input first: it must be non-empty, the name can be at most 100 bytes and the password at most 14 bytes. It then looks the name up in the store and compares the stored password with the supplied one. It stops at the first failure. It returns nil, one of four sentinel errors, or an error the repository produced.

Files:

- `errors.dfy` (module `AuthErrors`): the four sentinel errors as variants of
  `AuthError`, plus `ErrOther` for any other error a repository may return; Go's
  `error` result as `Outcome` (`Ok` for nil); the `(*Usuario, error)` pair as `Result`.
- `gostring.dfy` (module `GoString`): Go strings are byte strings. The core works on
  `seq<byte>`. `Utf8` is the encoding Go applies to the text of a string
  literal. `SameBytes` is string equality as `!=` tests it; `Login` compares
  passwords with it.
- `repositorio.dfy` (module `Repositorio`): `Usuario`, the map-backed store, the
  seeded store and `BuscaUsuario`. `AsRepositorio` exposes the store through the
  lookup interface.
- `servico.dfy` (module `Servico`): the validations and `Login`, plus lemmas
  about outcomes, check order, store access and the seeded scenario.

The `RepositorioUsuario` interface is modelled as a function value
`Bytes -> Result<Usuario>`: the service can only look names up. `Login` works
for any such lookup. It returns an `Attempt`: the outcome, plus the names it
asked the store for. `ValidationNeedsNoStore` shows that bad input never
reaches the store: the result is the same whatever the store holds.
`LookupDecides` is its partner for valid input: only the answer to the one
lookup of the supplied name matters. `Login` is a pure function, so calling
it twice with the same inputs and store gives the same answer. A lookup cannot change the store, and
the record it returns is a value, so it is a copy.

## Model

| member | source | states |
|---|---|---|
| `Servico.ValidateEmpty` | auth/auth.go:121-128 | fails, and only with `ErrValueRequired`, exactly when the name or the password is empty |
| `Servico.validateMaxLength` | auth/auth.go:113-119 | fails, and only with `ErrLenCarcterMax`, exactly when the name is over 100 bytes or the password over 14 bytes |
| `Servico.VerificarValor` | auth/auth.go:97-110 | nil exactly for non-empty input within both limits; `ErrValueRequired` exactly when a field is empty, even if the other is too long; `ErrLenCarcterMax` exactly when both fields are non-empty and one is too long |
| `Servico.Login` | auth/auth.go:76-92 | bad input returns the validation error with no lookup; valid input does exactly one lookup, of the supplied name; a lookup error is returned unchanged; a found record with another password gives `ErrUserOrPassIncorrect`; success exactly when the input is valid, the name is found and the passwords are equal |
| `Servico.ValidationNeedsNoStore` | auth/auth.go:78-82 | on bad input the result does not depend on the store (one that fails every lookup gives the same answer) and no lookup happens |
| `Servico.LookupDecides` | auth/auth.go:82-91 | two stores that answer the lookup of the supplied name alike give the same result for every password |
| `Servico.EmptyBeatsLength` | auth/auth.go:97-107 | an empty field gives `ErrValueRequired`, never `ErrLenCarcterMax`, whatever the store holds |
| `Servico.LoginFakeOutcomes` | auth/auth.go:50-92 | with the in-memory store, each of the five outcomes holds exactly under its condition on the input and the stored records (both directions) |
| `Servico.LoginFakeIdentifiesUser` | auth/auth.go:82-91 | a successful login on a well-formed store means the supplied name is a key whose record has that name and the supplied password |
| `Servico.SeededScenario` | auth/auth.go:38-92 | on the seeded store: joao/1234 succeeds, joao/wrong is incorrect, maria/1234 is not found, an empty name or password is required |
| `Servico.LengthCountsBytes` | auth/auth.go:113-119 | the limits count bytes: a 51-character name of 'ã' (102 bytes) is rejected as too long, with no lookup |
| `Repositorio.BuscaUsuario` | auth/auth.go:50-58 | succeeds exactly when the name is a key and returns that record; otherwise fails with `ErrNotFound` only; on a well-formed store the record found carries the looked-up, non-empty name |
| `Repositorio.NewRepositorioFake` | auth/auth.go:38-48 | the seeded store is well formed (each record under its own non-empty name, distinct IDs) and holds the single user joao with password 1234 |
| `GoString.SameBytes` | auth/auth.go:87 | the password comparison `Login` uses: equal length and equal bytes position by position holds exactly when the two strings are equal |
| `GoString.EncodeRune` | auth/auth.go:41-44 | a character encodes to 1-4 bytes whose leading byte gives the length, followed by continuation bytes, and decodes back to the character |
| `GoString.Utf8` | auth/auth.go:41-44 | a text of n characters becomes between n and 4n bytes, and is empty only when the text is |
| `GoString.Utf8Injective` | auth/auth.go:87 | different texts have different bytes, so the byte comparison of passwords is exact and case-sensitive on the text |
| `GoString.Utf8AsciiLength` | auth/auth.go:115 | ASCII text takes one byte per character, so `len` equals the character count |
| `GoString.Utf8TwoByteLength` | auth/auth.go:115 | text of characters U+0080..U+07FF takes two bytes per character |

## Left out

- `entrada` and `main` (auth/auth.go:132-167): console I/O with `fmt.Scan`/`fmt.Println`.
- The six-attempt retry loop and its lockout message: console UI policy, not part of `Login`.
- `strings.TrimSpace` on the inputs: the front end does this before calling `Login`.
- Error message texts: the errors are variants, and their strings are only for display.
- `NewAuthService` (auth/auth.go:68-72) only stores the repository. In the model, `Login` takes the lookup function directly.
- A repository that returns `(nil, nil)` is not modelled: Go would panic on `usuario.Senha` at auth/auth.go:87. `Result` holds either a record or an error, as `RepositorioFake` always returns.
- Errors from other repository implementations are `ErrOther` with an opaque code. Their identity and text are not modelled, only that `Login` returns them unchanged.
- Go pointers and interface dispatch: `BuscaUsuario` returns a record value rather than `*Usuario`, so no aliasing into the store can arise.
- The record ID is an unbounded `int`. Go's 64-bit `int` width plays no role in the logic.
- The length limits are fixed at 100 and 14 bytes as in the code. No configurable length policy exists there. Zero or negative limits cannot occur.
- `WellFormed` (names non-empty and unique, IDs distinct) holds for the seeded store. The code never checks it. `BuscaUsuario` and `Login` are modelled for any map.
