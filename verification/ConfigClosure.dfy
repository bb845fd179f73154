/** The TypeScript configs a build reads: everything referenced from the root config
    (`_referenced_tsconfigs`). */
module ConfigClosure {
  import opened Wrappers
  import JsonComments

  type Path = string

  /** The frontend directory as the closure sees it.  Paths are resolved ones: `files` holds
      the text of each regular file, `inside` tells the paths within the directory, and
      `references` reads a config's stripped text, giving the resolved configs it references
      or nothing when it is not a JSON object with well-formed references. */
  datatype Frontend = Frontend(
    files: map<Path, string>,
    inside: Path -> bool,
    references: (Path, string) -> Option<seq<Path>>)

  datatype ConfigError = Escapes(path: Path) | Missing(path: Path) | Unreadable(path: Path)

  /** The references of a config, read through the comment stripper. */
  function Read(frontend: Frontend, config: Path): Option<seq<Path>>
    requires config in frontend.files
  {
    var stripped := JsonComments.Strip(frontend.files[config], JsonComments.Code);
    if stripped.None? then None else frontend.references(config, stripped.value)
  }

  /** A config written as tokens and comments is read as its tokens, each comment replaced by its
      newlines. */
  lemma {:induction false} ReadWithoutComments(frontend: Frontend, config: Path, tokens: seq<JsonComments.Token>)
    requires config in frontend.files && JsonComments.ValidTokens(tokens)
    requires frontend.files[config] == JsonComments.RenderAll(tokens)
    ensures Read(frontend, config) == frontend.references(config, JsonComments.WithoutComments(tokens))
  {
    JsonComments.StrippingIsExact(tokens);
  }

  predicate Sound(frontend: Frontend, config: Path) {
    frontend.inside(config) && config in frontend.files && Read(frontend, config).Some?
  }

  predicate References(frontend: Frontend, config: Path, target: Path) {
    Sound(frontend, config) && target in Read(frontend, config).value
  }

  /** A chain of references from the root config. */
  ghost predicate IsChain(frontend: Frontend, root: Path, chain: seq<Path>) {
    && chain != [] && chain[0] == root
    && forall i :: 0 < i < |chain| ==> References(frontend, chain[i - 1], chain[i])
  }

  ghost predicate Reachable(frontend: Frontend, root: Path, config: Path) {
    exists chain :: IsChain(frontend, root, chain) && chain[|chain| - 1] == config
  }

  lemma {:induction false} ReachableStep(frontend: Frontend, root: Path, config: Path, target: Path)
    requires Reachable(frontend, root, config) && References(frontend, config, target)
    ensures Reachable(frontend, root, target)
  {
    var chain :| IsChain(frontend, root, chain) && chain[|chain| - 1] == config;
    assert IsChain(frontend, root, chain + [target]);
  }

  lemma {:induction false} ClosedHoldsReachable(frontend: Frontend, root: Path, closed: set<Path>, chain: seq<Path>)
    requires root in closed && IsChain(frontend, root, chain)
    requires forall c, t :: c in closed && References(frontend, c, t) ==> t in closed
    ensures chain[|chain| - 1] in closed
  {
    if |chain| > 1 {
      var shorter := chain[..|chain| - 1];
      ClosedHoldsReachable(frontend, root, closed, shorter);
      assert References(frontend, shorter[|shorter| - 1], chain[|chain| - 1]);
    }
  }

  /** Exactly the configs reachable from the root, each a sound one of the directory; refused
      exactly when some reachable config escapes, is missing or cannot be read. */
  method ReferencedTsconfigs(frontend: Frontend, root: Path) returns (r: Result<set<Path>, ConfigError>)
    ensures r.Success? ==> forall c :: c in r.value <==> Reachable(frontend, root, c)
    ensures r.Success? ==> forall c :: c in r.value ==> Sound(frontend, c)
    ensures r.Failure? <==> exists c :: Reachable(frontend, root, c) && !Sound(frontend, c)
    ensures r.Failure? ==> Reachable(frontend, root, r.error.path) && match r.error
      case Escapes(c) => !frontend.inside(c)
      case Missing(c) => frontend.inside(c) && c !in frontend.files
      case Unreadable(c) => frontend.inside(c) && c in frontend.files && Read(frontend, c).None?
  {
    var pending := [root];
    var discovered: set<Path> := {};
    assert IsChain(frontend, root, [root]);
    while pending != []
      invariant root in discovered || root in pending
      invariant forall c :: c in pending || c in discovered ==> Reachable(frontend, root, c)
      invariant forall c :: c in discovered ==> Sound(frontend, c)
      invariant forall c, t :: c in discovered && References(frontend, c, t) ==> t in discovered || t in pending
      decreases frontend.files.Keys - discovered, |pending|
    {
      var config := pending[|pending| - 1];
      var rest := pending[..|pending| - 1];
      assert forall c :: c in pending <==> c in rest || c == config;
      pending := rest;
      if config in discovered {
        continue;
      }
      if !frontend.inside(config) {
        return Failure(Escapes(config));
      }
      if config !in frontend.files {
        return Failure(Missing(config));
      }
      discovered := discovered + {config};
      var references := Read(frontend, config);
      if references.None? {
        return Failure(Unreadable(config));
      }
      forall t | t in references.value
        ensures Reachable(frontend, root, t)
      {
        ReachableStep(frontend, root, config, t);
      }
      pending := pending + references.value;
    }
    forall c | Reachable(frontend, root, c)
      ensures c in discovered
    {
      var chain :| IsChain(frontend, root, chain) && chain[|chain| - 1] == c;
      ClosedHoldsReachable(frontend, root, discovered, chain);
    }
    return Success(discovered);
  }
}
