/** The user store: the `Usuario` record and the in-memory repository that
    answers lookups by name. */
module Repositorio {
  import opened AuthErrors
  import opened GoString

  /** One registered account. The password is stored in plain text. */
  datatype Usuario = Usuario(id: int, nome: Bytes, senha: Bytes)

  /** The in-memory repository: records keyed by user name. */
  datatype RepositorioFake = RepositorioFake(usuarios: map<Bytes, Usuario>)

  /** Every record is filed under its own, non-empty name, and no two
      records share an ID. */
  predicate WellFormed(r: RepositorioFake)
  {
    && (forall k :: k in r.usuarios ==> k != [] && r.usuarios[k].nome == k)
    && (forall k1, k2 :: k1 in r.usuarios && k2 in r.usuarios && k1 != k2 ==>
          r.usuarios[k1].id != r.usuarios[k2].id)
  }

  /** The repository the program starts with: one user, "joao", password "1234". */
  function NewRepositorioFake(): (r: RepositorioFake)
    ensures WellFormed(r)
    ensures |r.usuarios| == 1
    ensures Utf8("joao") in r.usuarios
    ensures r.usuarios[Utf8("joao")].senha == Utf8("1234")
  {
    RepositorioFake(map[Utf8("joao") := Usuario(1, Utf8("joao"), Utf8("1234"))])
  }

  /** Lookup by name. The record is a value, so the caller gets a copy it
      cannot use to change the store; a missing name is `ErrNotFound` and
      nothing else can go wrong. */
  function BuscaUsuario(r: RepositorioFake, nome: Bytes): (res: Result<Usuario>)
    ensures res.Success? <==> nome in r.usuarios
    ensures res.Success? ==> res.value == r.usuarios[nome]
    ensures res.Failure? ==> res.error == ErrNotFound
    ensures WellFormed(r) && res.Success? ==> res.value.nome == nome && nome != []
  {
    if nome in r.usuarios then Success(r.usuarios[nome]) else Failure(ErrNotFound)
  }

  /** The fake repository seen through the lookup interface the service uses. */
  function AsRepositorio(r: RepositorioFake): Bytes -> Result<Usuario>
  {
    nome => BuscaUsuario(r, nome)
  }
}
