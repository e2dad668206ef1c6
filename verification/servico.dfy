/** The authentication service: input validation followed by a store lookup
    and a password comparison, stopping at the first failure. */
module Servico {
  import opened AuthErrors
  import opened GoString
  import opened Repositorio

  /** Longest accepted user name and password, in bytes. */
  const MaxNome: nat := 100
  const MaxSenha: nat := 14

  /** The repository interface: anything that answers a lookup by name.
      The service holds nothing else. */
  type RepositorioUsuario = Bytes -> Result<Usuario>

  /** What one call to `Login` returns, together with the names it asked the
      repository for (in order), so that store access can be stated. */
  datatype Attempt = Attempt(outcome: Outcome, consultas: seq<Bytes>)

  /** Input that passes both validations. */
  predicate WellShaped(usuario: Bytes, senha: Bytes)
  {
    usuario != [] && senha != [] && |usuario| <= MaxNome && |senha| <= MaxSenha
  }

  /** Rejects an empty user name or an empty password. */
  function ValidateEmpty(usuario: Bytes, senha: Bytes): (r: Outcome)
    ensures r == Ok || r == Fail(ErrValueRequired)
    ensures r == Ok <==> |usuario| > 0 && |senha| > 0
  {
    if usuario == [] || senha == [] then Fail(ErrValueRequired) else Ok
  }

  /** Rejects a user name over 100 bytes or a password over 14 bytes. */
  function validateMaxLength(usuario: Bytes, senha: Bytes): (r: Outcome)
    ensures r == Ok || r == Fail(ErrLenCarcterMax)
    ensures r == Ok <==> |usuario| <= MaxNome && |senha| <= MaxSenha
  {
    if |usuario| > MaxNome || |senha| > MaxSenha then Fail(ErrLenCarcterMax) else Ok
  }

  /** Both validations, emptiness first: an empty field is reported as
      missing even when the other field is too long. */
  function VerificarValor(usuario: Bytes, senha: Bytes): (r: Outcome)
    ensures r == Ok <==> WellShaped(usuario, senha)
    ensures r == Fail(ErrValueRequired) <==> usuario == [] || senha == []
    ensures r == Fail(ErrLenCarcterMax) <==>
              usuario != [] && senha != [] && (|usuario| > MaxNome || |senha| > MaxSenha)
  {
    var vazio := ValidateEmpty(usuario, senha);
    if vazio.Fail? then vazio else validateMaxLength(usuario, senha)
  }

  /** Log in against any repository. Malformed input is rejected without a
      lookup; otherwise the repository is asked exactly once, its error is
      passed on unchanged, and a found record succeeds only when its password
      equals the supplied one. */
  function Login(repo: RepositorioUsuario, nome: Bytes, senha: Bytes): (a: Attempt)
    ensures !WellShaped(nome, senha) ==>
              a.consultas == [] && a.outcome == VerificarValor(nome, senha)
    ensures WellShaped(nome, senha) ==> a.consultas == [nome]
    ensures WellShaped(nome, senha) && repo(nome).Failure? ==>
              a.outcome == Fail(repo(nome).error)
    ensures WellShaped(nome, senha) && repo(nome).Success? && repo(nome).value.senha != senha ==>
              a.outcome == Fail(ErrUserOrPassIncorrect)
    ensures a.outcome == Ok <==>
              WellShaped(nome, senha) && repo(nome).Success? && repo(nome).value.senha == senha
  {
    var v := VerificarValor(nome, senha);
    if v.Fail? then Attempt(v, [])
    else
      match repo(nome)
      case Failure(e) => Attempt(Fail(e), [nome])
      case Success(u) =>
        Attempt(if !SameBytes(u.senha, senha) then Fail(ErrUserOrPassIncorrect) else Ok, [nome])
  }

  /** On malformed input the repository makes no difference: a repository
      that would fail every lookup gives the same answer as any other. */
  lemma ValidationNeedsNoStore(r1: RepositorioUsuario, r2: RepositorioUsuario,
                               nome: Bytes, senha: Bytes)
    requires !WellShaped(nome, senha)
    ensures Login(r1, nome, senha) == Login(r2, nome, senha)
    ensures Login(r1, nome, senha).consultas == []
  {
  }

  /** On well-formed input only the lookup of the supplied name matters: two
      repositories that answer it alike give the same result. */
  lemma LookupDecides(r1: RepositorioUsuario, r2: RepositorioUsuario,
                      nome: Bytes, senha: Bytes)
    requires r1(nome) == r2(nome)
    ensures Login(r1, nome, senha) == Login(r2, nome, senha)
  {
  }

  /** An empty field is reported as missing whatever the repository holds and
      however long the other field is. */
  lemma EmptyBeatsLength(repo: RepositorioUsuario, nome: Bytes, senha: Bytes)
    requires nome == [] || senha == []
    ensures Login(repo, nome, senha).outcome == Fail(ErrValueRequired)
    ensures Login(repo, nome, senha).outcome != Fail(ErrLenCarcterMax)
  {
  }

  /** Against the in-memory repository each outcome has an exact description
      in terms of the input and the stored records. */
  lemma LoginFakeOutcomes(r: RepositorioFake, nome: Bytes, senha: Bytes)
    ensures var o := Login(AsRepositorio(r), nome, senha).outcome;
      && (o == Fail(ErrValueRequired) <==> nome == [] || senha == [])
      && (o == Fail(ErrLenCarcterMax) <==>
            nome != [] && senha != [] && (|nome| > MaxNome || |senha| > MaxSenha))
      && (o == Fail(ErrNotFound) <==> WellShaped(nome, senha) && nome !in r.usuarios)
      && (o == Fail(ErrUserOrPassIncorrect) <==>
            WellShaped(nome, senha) && nome in r.usuarios && r.usuarios[nome].senha != senha)
      && (o == Ok <==>
            WellShaped(nome, senha) && nome in r.usuarios && r.usuarios[nome].senha == senha)
  {
  }

  /** A successful login against a well-formed repository identifies the
      record filed under the supplied name and holding the supplied password. */
  lemma LoginFakeIdentifiesUser(r: RepositorioFake, nome: Bytes, senha: Bytes)
    requires WellFormed(r)
    requires Login(AsRepositorio(r), nome, senha).outcome == Ok
    ensures nome in r.usuarios
    ensures r.usuarios[nome].nome == nome && r.usuarios[nome].senha == senha
  {
  }

  /** The starting repository: "joao"/"1234" logs in, a wrong password is
      incorrect, an unknown user is not found, an empty field is missing. */
  lemma SeededScenario()
    ensures Login(AsRepositorio(NewRepositorioFake()), Utf8("joao"), Utf8("1234")).outcome == Ok
    ensures Login(AsRepositorio(NewRepositorioFake()), Utf8("joao"), Utf8("wrong")).outcome
              == Fail(ErrUserOrPassIncorrect)
    ensures Login(AsRepositorio(NewRepositorioFake()), Utf8("maria"), Utf8("1234")).outcome
              == Fail(ErrNotFound)
    ensures Login(AsRepositorio(NewRepositorioFake()), Utf8(""), Utf8("1234")).outcome
              == Fail(ErrValueRequired)
    ensures Login(AsRepositorio(NewRepositorioFake()), Utf8("joao"), Utf8("")).outcome
              == Fail(ErrValueRequired)
  {
  }

  /** The limits count bytes, not characters: a name of 51 'ã' characters is
      102 bytes long and is rejected before any lookup, although it has far
      fewer than 100 characters. */
  lemma LengthCountsBytes(repo: RepositorioUsuario)
    ensures var nome := Utf8(seq(51, _ => '\U{E3}'));
      && Login(repo, nome, Utf8("1234")).outcome == Fail(ErrLenCarcterMax)
      && Login(repo, nome, Utf8("1234")).consultas == []
  {
    var texto := seq(51, _ => '\U{E3}');
    Utf8TwoByteLength(texto);
    Utf8AsciiLength("1234");
  }
}
