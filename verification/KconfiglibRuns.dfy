/** Whole sessions with kconfiglib: the answers are those of evaluation without caches. */
module KconfiglibRuns {
  import opened KconfiglibSymbols
  import opened KconfiglibMeaning
  import opened KconfiglibDepend
  import opened KconfiglibFresh
  import opened KconfiglibCache

  datatype Request =
    | Get(s: string)
    | Set(s: string, v: string)
    | Unset(s: string)
    | Load(lines: seq<(string, string)>, replace: bool)

  /** MODULES does not depend on `s`. */
  ghost predicate LeavesModules(k: Config, s: string) {
    forall r | IsDependent(k, s, r) :: MODULES !in r
  }

  /** Known symbols, and nothing that changes MODULES but setting it or loading a file. */
  ghost predicate Proper(k: Config, q: Request) {
    match q
    case Get(s) => s in k.syms
    case Set(s, _) => s in k.syms && (s == MODULES || LeavesModules(k, s))
    case Unset(s) => s in k.syms && s != MODULES && LeavesModules(k, s)
    case Load(_, _) => true
  }

  function After(k: Config, u: Users, q: Request): Users {
    match q
    case Get(_) => u
    case Set(s, v) => Assigned(k, u, s, v)
    case Unset(s) => Cleared(k, u, s)
    case Load(lines, replace) => Loaded(k, if replace then Users(map[], map[], map[]) else u, lines)
  }

  /** What a session is answered when every value is computed from scratch. */
  ghost function Answers(k: Config, u: Users, rank: string -> nat, qs: seq<Request>): seq<string>
    decreases qs
  {
    if qs == [] then []
    else
      (if qs[0].Get? then [Meaning(k, u, rank, qs[0].s).val] else [])
      + Answers(k, After(k, u, qs[0]), rank, qs[1..])
  }

  lemma NextAnswer(k: Config, u: Users, rank: string -> nat, qs: seq<Request>, i: nat)
    requires i < |qs|
    ensures Answers(k, u, rank, qs[i..]) ==
            (if qs[i].Get? then [Meaning(k, u, rank, qs[i].s).val] else [])
            + Answers(k, After(k, u, qs[i]), rank, qs[i + 1..])
  {
    hide After, Meaning;
    assert qs[i..][1..] == qs[i + 1..];
  }

  method Answer(c: Configuration, q: Request, ghost rank: string -> nat) returns (r: seq<string>)
    requires c.Valid(rank) && Tracked(c.k) && c.Linked(rank) && Proper(c.k, q)
    modifies c
    ensures c.Valid(rank) && c.Linked(rank) && c.users == After(c.k, old(c.users), q)
    ensures r == if q.Get? then [Meaning(c.k, old(c.users), rank, q.s).val] else []
  {
    hide Tracked, Coherent, Ranked, UsersFit, Fresh, Full, IsDependent, Dependents, Assigned, Cleared, Loaded, Meaning, Without,
      Configuration.Linked, Configuration.Valid;
    r := [];
    match q
    case Get(s) =>
      var v := c.GetValue(s, rank);
      r := [v];
    case Set(s, v) => c.SetUserValue(s, v, rank);
    case Unset(s) => c.UnsetUserValue(s, rank);
    case Load(lines, replace) => c.LoadConfig(lines, replace, rank);
  }

  /** Any session on a fresh configuration. */
  method Run(k: Config, qs: seq<Request>, ghost rank: string -> nat) returns (answers: seq<string>)
    requires Coherent(k) && Tracked(k) && Ranked(k, rank) && forall q | q in qs :: Proper(k, q)
    ensures answers == Answers(k, Users(map[], map[], map[]), rank, qs)
  {
    hide Tracked, Coherent, Ranked, UsersFit, Fresh, Full, IsDependent, Dependents, After, Proper, Meaning, Answers,
      Configuration.Linked, Configuration.Valid;
    var c := new Configuration(k, rank);
    ghost var all := Answers(k, c.users, rank, qs);
    answers := [];
    assert qs[0..] == qs && answers + all == all;
    for i := 0 to |qs|
      invariant c.k == k && c.Valid(rank) && c.Linked(rank) && fresh(c)
      invariant answers + Answers(k, c.users, rank, qs[i..]) == all
    {
      NextAnswer(k, c.users, rank, qs, i);
      var r := Answer(c, qs[i], rank);
      ghost var others := Answers(k, c.users, rank, qs[i + 1..]);
      assert answers + (r + others) == answers + r + others;
      answers := answers + r;
    }
    NoAnswers(k, c.users, rank, qs[|qs|..]);
    assert answers + [] == answers;
  }

  lemma NoAnswers(k: Config, u: Users, rank: string -> nat, qs: seq<Request>)
    requires qs == []
    ensures Answers(k, u, rank, qs) == []
  {
  }
}
