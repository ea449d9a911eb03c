/** The crate's API (actions/core/src/lib.rs): `input` over the resolver, `output`
    in the `::set-output` line protocol, and `repository` from the
    `GITHUB_REPOSITORY` slug. */
module Beta {
  import opened Wrappers
  import Strings
  import Io

  /** `env::VarError`. */
  datatype VarError = NotPresent | NotUnicode

  /** The crate's `Error`: a resolver error or an environment error. */
  datatype Error = IoError(io: Io.IoError) | EnvVarError(env: VarError)

  // ---------------------------------------------------------------------------
  // input

  /** `input::<T>(name)`, with `required` choosing between `T` and `Option<T>`:
      the resolver's result, with its error wrapped as `Error::IoError`. */
  function Input(env: Io.Env, name: string, k: Io.ScalarKind, required: bool): (r: Result<Option<Io.Scalar>, Error>)
    ensures !(r.Err? && r.error.EnvVarError?)
    ensures r.Ok? <==> Io.Resolve(env, name, k, required).Ok?
    ensures r.Ok? ==> r.value == Io.Resolve(env, name, k, required).value
    ensures r.Err? ==> r.error.io == Io.Resolve(env, name, k, required).error
  {
    match Io.Resolve(env, name, k, required)
    case Ok(v) => Ok(v)
    case Err(e) => Err(IoError(e))
  }

  /** The documented behaviour for a missing input: `input::<String>` is an
      error and `input::<Option<String>>` is `Ok(None)`. */
  lemma InputMissing(env: Io.Env, name: string)
    requires Io.Lookup(env, Io.EnvKey(name)).NotPresent?
    ensures Input(env, name, Io.Text, true) == Err(IoError(Io.MissingRequired(name)))
    ensures Input(env, name, Io.Text, false) == Ok(None)
  {
  }

  // ---------------------------------------------------------------------------
  // output

  /** Every argument type that `output` accepts through `ToOutput`. */
  datatype OutputValue = Plain(v: Io.Scalar) | Optional(o: Option<Io.Scalar>)

  function ToOutput(x: OutputValue): (r: string)
    ensures r == [] <==> x == Plain(Io.StrVal("")) || x == Optional(None) || x == Optional(Some(Io.StrVal("")))
  {
    match x
    case Plain(v) => Io.Format(v)
    case Optional(o) => Io.FormatOptional(o)
  }

  const SetOutputPrefix: string := "::set-output name="
  const Separator: string := "::"

  /** The line `output` prints for `name` and the formatted value. */
  function SetOutputLine(name: string, value: string): (line: string)
    ensures var n := |SetOutputPrefix| + |name| + |Separator|;
      && |line| == n + |value|
      && line[..n] == SetOutputPrefix + name + Separator
      && line[n..] == value
  {
    SetOutputPrefix + name + Separator + value
  }

  /** Standard output as the sequence of lines written to it. */
  class Stdout {
    var lines: seq<string>

    constructor ()
      ensures lines == []
    {
      lines := [];
    }

    /** `output(name, value)`: prints exactly one `::set-output` line. */
    method Output(name: string, value: OutputValue)
      modifies this
      ensures lines == old(lines) + [SetOutputLine(name, ToOutput(value))]
    {
      lines := lines + [SetOutputLine(name, ToOutput(value))];
    }
  }

  /** Where the name and the separator sit in a line. */
  lemma SetOutputLineAt(name: string, value: string, j: int)
    ensures var line := SetOutputLine(name, value);
      && |line| == |SetOutputPrefix| + |name| + 2 + |value|
      && (0 <= j < |name| ==> line[|SetOutputPrefix| + j] == name[j])
      && line[|SetOutputPrefix| + |name|] == ':'
      && line[|SetOutputPrefix| + |name| + 2..] == value
  {
  }

  /** A line determines its name and value as long as names have no `:`. */
  lemma SetOutputLineDecodes(n1: string, v1: string, n2: string, v2: string)
    requires ':' !in n1 && ':' !in n2
    requires SetOutputLine(n1, v1) == SetOutputLine(n2, v2)
    ensures n1 == n2 && v1 == v2
  {
    SetOutputLineAt(n1, v1, |n2|);
    SetOutputLineAt(n2, v2, |n1|);
    assert |n1| == |n2|;
    forall j | 0 <= j < |n1| ensures n1[j] == n2[j] {
      SetOutputLineAt(n1, v1, j);
      SetOutputLineAt(n2, v2, j);
    }
    assert n1 == n2;
  }

  /** The printed text is a single line exactly when neither the name nor the
      value contains a line break. */
  lemma SetOutputLineIsOneLine(name: string, value: string)
    ensures '\n' !in SetOutputLine(name, value) <==> '\n' !in name && '\n' !in value
  {
  }

  /** An absent optional value leaves the line ending in the separator. */
  lemma OutputOfNone(name: string)
    ensures SetOutputLine(name, ToOutput(Optional(None))) == SetOutputPrefix + name + Separator
  {
  }

  /** Example: reporting a comment's URL. */
  method ReportCommentUrl() returns (out: Stdout)
    ensures fresh(out)
    ensures out.lines == ["::set-output name=comment-url::https://x/1"]
  {
    out := new Stdout();
    out.Output("comment-url", Plain(Io.StrVal("https://x/1")));
    assert SetOutputLine("comment-url", "https://x/1") == "::set-output name=comment-url::https://x/1";
  }

  // ---------------------------------------------------------------------------
  // repository

  const RepositoryVar: string := "GITHUB_REPOSITORY"

  /** `Repository`: the owner and the name of a repository. */
  datatype Repository = Repository(owner: string, name: string)

  /** `repo` holds the first two `/`-separated segments of `slug`: `slug`
      starts with owner, `/`, name, and goes on, if at all, with another `/`. */
  predicate LeadingSegments(slug: string, repo: Repository) {
    var n := |repo.owner| + 1 + |repo.name|;
    && '/' !in repo.owner && '/' !in repo.name
    && n <= |slug|
    && slug[..n] == repo.owner + "/" + repo.name
    && (n < |slug| ==> slug[n] == '/')
  }

  /** `repository()`: an environment error when `GITHUB_REPOSITORY` is unset or
      not Unicode; otherwise the first two segments of the slug. A slug without
      `/` is not accepted (the source panics on it). */
  function CurrentRepository(env: Io.Env): (r: Result<Repository, Error>)
    requires Io.Lookup(env, RepositoryVar).Present? ==> '/' in Io.Lookup(env, RepositoryVar).s
    ensures Io.Lookup(env, RepositoryVar).NotPresent? ==> r == Err(EnvVarError(NotPresent))
    ensures Io.Lookup(env, RepositoryVar).NotUnicode? ==> r == Err(EnvVarError(NotUnicode))
    ensures Io.Lookup(env, RepositoryVar).Present? ==>
      r.Ok? && LeadingSegments(Io.Lookup(env, RepositoryVar).s, r.value)
  {
    match Io.Lookup(env, RepositoryVar)
    case NotPresent => Err(EnvVarError(NotPresent))
    case NotUnicode => Err(EnvVarError(NotUnicode))
    case Present(slug) =>
      Strings.SplitLeadingSegments(slug, '/');
      var parts := Strings.Split(slug, '/');
      Ok(Repository(parts[0], parts[1]))
  }

  /** Where the owner, the separator and the name sit in the slug. */
  lemma LeadingSegmentsAt(slug: string, repo: Repository, j: int)
    requires LeadingSegments(slug, repo)
    ensures 0 <= j < |repo.owner| ==> slug[j] == repo.owner[j]
    ensures slug[|repo.owner|] == '/'
    ensures 0 <= j < |repo.name| ==> slug[|repo.owner| + 1 + j] == repo.name[j]
  {
    var n := |repo.owner| + 1 + |repo.name|;
    assert forall i :: 0 <= i < n ==> slug[i] == slug[..n][i];
  }

  /** The first two segments of a slug are unique. */
  lemma LeadingSegmentsUnique(slug: string, a: Repository, b: Repository)
    requires LeadingSegments(slug, a) && LeadingSegments(slug, b)
    ensures a == b
  {
    LeadingSegmentsAt(slug, a, |b.owner|);
    LeadingSegmentsAt(slug, b, |a.owner|);
    assert |a.owner| == |b.owner|;
    forall j | 0 <= j < |a.owner| ensures a.owner[j] == b.owner[j] {
      LeadingSegmentsAt(slug, a, j);
      LeadingSegmentsAt(slug, b, j);
    }
    assert a.owner == b.owner;
    LeadingSegmentsAt(slug, a, |b.name|);
    LeadingSegmentsAt(slug, b, |a.name|);
    assert |a.name| == |b.name|;
    forall j | 0 <= j < |a.name| ensures a.name[j] == b.name[j] {
      LeadingSegmentsAt(slug, a, j);
      LeadingSegmentsAt(slug, b, j);
    }
  }

  /** A slug `owner/name`, possibly followed by further `/` segments, gives
      back that owner and name. */
  lemma RepositoryRoundTrip(env: Io.Env, owner: string, name: string, rest: string)
    requires '/' !in owner && '/' !in name
    requires rest == [] || rest[0] == '/'
    requires Io.Lookup(env, RepositoryVar) == Io.Present(owner + "/" + name + rest)
    ensures CurrentRepository(env) == Ok(Repository(owner, name))
  {
    var slug := owner + "/" + name + rest;
    var n := |owner| + 1 + |name|;
    assert slug[|owner|] == '/';
    assert slug[..n] == owner + "/" + name;
    assert n < |slug| ==> slug[n] == rest[0];
    LeadingSegmentsUnique(slug, CurrentRepository(env).value, Repository(owner, name));
  }

  /** Segments after the second are dropped. */
  lemma RepositoryDropsFurtherSegments(env: Io.Env)
    requires Io.Lookup(env, RepositoryVar) == Io.Present("octo/hello/extra")
    ensures CurrentRepository(env) == Ok(Repository("octo", "hello"))
  {
    assert "octo/hello/extra" == "octo" + "/" + "hello" + "/extra";
    RepositoryRoundTrip(env, "octo", "hello", "/extra");
  }
}
