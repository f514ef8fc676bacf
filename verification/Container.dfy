/**
 The dependency injection container: lazily built singletons, a registry of
 services and the stack of constructors that are currently running.

 A program is the finite table of its class tokens. What a constructor does is
 the sequence of `get` calls it makes, after which it may throw an error of its
 own; it may catch the failure of a call and carry on with the next one. A symbol
 or string token is any token the table does not hold.
 */
module DiContainer {
  import opened Digraph
  import opened Sequences

  datatype Token = Token(name: string)

  /** A `get` call in a constructor, which may be inside a `try` that swallows its failure. */
  datatype Lookup = Lookup(token: Token, caught: bool)

  /** What `new token()` does: resolve `gets` in order, then perhaps throw. */
  datatype Constructor = Constructor(gets: seq<Lookup>, throws: bool)

  type Program = map<Token, Constructor>

  /** An object built by the container, numbered in order of completion, or one handed to `set`. */
  datatype Instance = Built(serial: nat) | Given(id: nat)

  datatype Failure =
    | NotFound(token: Token)           // ServiceNotFoundError
    | Circular(chain: seq<Token>)      // CircularDependencyError
    | Thrown(token: Token)             // the constructor's own error

  datatype Outcome = Ok(instance: Instance) | Err(failure: Failure)

  /** The tokens a constructor cannot do without. */
  ghost function Needed(gets: seq<Lookup>): set<Token> {
    set g | g in gets && !g.caught :: g.token
  }

  ghost function Asked(gets: seq<Lookup>): set<Token> {
    set g | g in gets :: g.token
  }

  /** Unregistered class -> token its constructor cannot do without. */
  ghost function Edges(program: Program, registered: set<Token>): set<(Token, Token)> {
    set c, d | c in program && c !in registered && d in Needed(program[c].gets) :: (c, d)
  }

  /** Unregistered class -> token its constructor asks for, catching the failure or not. */
  ghost function CallEdges(program: Program, registered: set<Token>): set<(Token, Token)> {
    set c, d | c in program && c !in registered && d in Asked(program[c].gets) :: (c, d)
  }

  /** Why constructing x must fail while the constructors in `running` have not returned. */
  ghost predicate IsFault(program: Program, registered: set<Token>, running: set<Token>, x: Token) {
    && x !in registered
    && (x !in program
        || program[x].throws
        || x in running
        || OnCycle(Edges(program, registered), x))
  }

  /** Resolving t runs into a fault: one is reachable through unregistered classes. */
  ghost predicate Faulty(program: Program, registered: set<Token>, running: set<Token>, t: Token) {
    exists x: Token ::
      Reach(Edges(program, registered), t, x) && IsFault(program, registered, running, x)
  }

  lemma FaultyBy(program: Program, registered: set<Token>, running: set<Token>, t: Token, x: Token)
    requires Reach(Edges(program, registered), t, x) && IsFault(program, registered, running, x)
    ensures Faulty(program, registered, running, t)
  {
  }

  lemma FaultyFewerRunning(program: Program, registered: set<Token>, few: set<Token>, many: set<Token>, t: Token)
    requires few <= many && Faulty(program, registered, few, t)
    ensures Faulty(program, registered, many, t)
  {
    var x: Token :| Reach(Edges(program, registered), t, x) && IsFault(program, registered, few, x);
    assert IsFault(program, registered, many, x);
  }

  /**
   Registering services that resolve without a fault changes nobody's verdict:
   the outcome of `get` does not depend on what was resolved before.
   */
  lemma VerdictUnchanged(program: Program, before: set<Token>, after: set<Token>, running: set<Token>, t: Token)
    requires before <= after
    requires forall n :: n in after - before ==> !Faulty(program, before, running, n)
    ensures Faulty(program, before, running, t) <==> Faulty(program, after, running, t)
  {
    var big, small := Edges(program, before), Edges(program, after);
    if Faulty(program, after, running, t) {
      var x: Token :| Reach(small, t, x) && IsFault(program, after, running, x);
      ReachMono(small, big, t, x);
      if OnCycle(small, x) {
        OnCycleMono(small, big, x);
      }
      FaultyBy(program, before, running, t, x);
    }
    if Faulty(program, before, running, t) {
      var x: Token :| Reach(big, t, x) && IsFault(program, before, running, x);
      NoFaultBehindRegistered(program, before, after, running, t, x);
      ReachRefl(big, x);
      if x in after {
        FaultyBy(program, before, running, x, x);
        assert false;
      }
      if OnCycle(big, x) {
        var y: Token :| (x, y) in big && Reach(big, y, x);
        NoFaultBehindRegistered(program, before, after, running, y, x);
        assert (x, y) in small;
      }
      FaultyBy(program, after, running, t, x);
    }
  }

  /** No way to a fault leads through a service that resolved without one. */
  lemma NoFaultBehindRegistered(program: Program, before: set<Token>, after: set<Token>, running: set<Token>,
                                a: Token, x: Token)
    requires before <= after
    requires forall n :: n in after - before ==> !Faulty(program, before, running, n)
    requires Reach(Edges(program, before), a, x) && IsFault(program, before, running, x)
    ensures Reach(Edges(program, after), a, x)
  {
    var big, small := Edges(program, before), Edges(program, after);
    ReachCut(small, big, a, x);
    if !Reach(small, a, x) {
      var u: Token, v: Token :| (u, v) in big - small && Reach(small, a, u) && Reach(big, v, x);
      ReachEdge(big, u, v);
      ReachTrans(big, u, v, x);
      FaultyBy(program, before, running, u, x);
      assert false;
    }
  }

  /** A class that is free to be constructed is faulty exactly when one of its `get` calls is. */
  lemma FaultyStep(program: Program, registered: set<Token>, running: set<Token>, t: Token)
    requires t in program && t !in registered && t !in running && !program[t].throws
    ensures Faulty(program, registered, running, t)
       <==> exists d :: d in Needed(program[t].gets) && Faulty(program, registered, running + {t}, d)
  {
    var edges := Edges(program, registered);
    if Faulty(program, registered, running, t) {
      var x: Token :| Reach(edges, t, x) && IsFault(program, registered, running, x);
      if x == t {
        var d: Token :| (t, d) in edges && Reach(edges, d, t);
        FaultyBy(program, registered, running + {t}, d, t);
      } else {
        var d := ReachFirst(edges, t, x);
        FaultyBy(program, registered, running + {t}, d, x);
      }
    }
    if d :| d in Needed(program[t].gets) && Faulty(program, registered, running + {t}, d) {
      var x: Token :| Reach(edges, d, x) && IsFault(program, registered, running + {t}, x);
      assert (t, d) in edges;
      if x == t {
        assert OnCycle(edges, t);
        ReachRefl(edges, t);
      } else {
        ReachEdge(edges, t, d);
        ReachTrans(edges, t, d, x);
      }
      FaultyBy(program, registered, running, t, x);
    }
  }

  /** The chain of a circular error: real constructor calls, closed, each class once, none registered. */
  ghost predicate GenuineCycle(program: Program, registered: set<Token>, chain: seq<Token>) {
    && |chain| >= 2
    && chain[0] == chain[|chain| - 1]
    && Distinct(chain[1..])
    && IsWalk(CallEdges(program, registered), chain)
  }

  /**
   How a chain lies on the stack while t is asked for: below the top it runs along
   the stack, and above it no call of it catches the failure.
   */
  ghost predicate RunsAlong(program: Program, registered: set<Token>, stack: seq<Token>, t: Token, chain: seq<Token>) {
    && (forall i, j :: 0 <= i < |chain| - 1 && 0 <= j < |stack| && chain[i] == stack[j] ==>
          chain[i + 1] == (stack + [t])[j + 1])
    && (forall i :: 0 <= i < |chain| - 1 && chain[i] !in stack ==> Follows(Edges(program, registered), chain, i))
  }

  /** A circular error that leaves the container lies on a cycle of calls that catch nothing. */
  lemma CircularIsCycle(program: Program, registered: set<Token>, t: Token, chain: seq<Token>)
    requires GenuineCycle(program, registered, chain) && RunsAlong(program, registered, [], t, chain)
    ensures OnCycle(Edges(program, registered), chain[0])
  {
    var edges := Edges(program, registered);
    assert Follows(edges, chain, 0);
    var rest := chain[1..];
    forall i | 0 <= i < |rest| - 1
      ensures Follows(edges, rest, i)
    {
      assert Follows(edges, chain, i + 1);
    }
    assert WalkFromTo(edges, rest, chain[1], chain[0]);
  }

  /**
   A program without cycles, without throwing constructors and without unknown
   tokens resolves every one of its classes, whatever is registered already.
   */
  lemma SoundProgramResolves(program: Program, registered: set<Token>, t: Token)
    requires Acyclic(Edges(program, registered))
    requires forall c :: c in program ==> !program[c].throws
    requires forall c, d :: c in program && d in Needed(program[c].gets) ==> d in program || d in registered
    requires t in program || t in registered
    ensures !Faulty(program, registered, {}, t)
  {
    if Faulty(program, registered, {}, t) {
      var x: Token :| Reach(Edges(program, registered), t, x) && IsFault(program, registered, {}, x);
      ReachedIsKnown(program, registered, t, x);
      assert false;
    }
  }

  lemma ReachedIsKnown(program: Program, registered: set<Token>, t: Token, x: Token)
    requires forall c, d :: c in program && d in Needed(program[c].gets) ==> d in program || d in registered
    requires t in program || t in registered
    requires Reach(Edges(program, registered), t, x)
    ensures x in program || x in registered
  {
    var p: seq<Token> :| WalkFromTo(Edges(program, registered), p, t, x);
    if |p| > 1 {
      assert Follows(Edges(program, registered), p, |p| - 2);
    }
  }

  /** What each failure reports is really there, on the way from t, and still unregistered. */
  ghost predicate Genuine(program: Program, before: set<Token>, after: set<Token>, stack: seq<Token>, t: Token,
                          failure: Failure) {
    match failure
    case NotFound(x) =>
      x !in program && x !in after && Reach(Edges(program, before), t, x)
    case Thrown(x) =>
      x in program && program[x].throws && x !in after && Reach(Edges(program, before), t, x)
    case Circular(chain) =>
      && GenuineCycle(program, after, chain) && RunsAlong(program, after, stack, t, chain)
      && Reach(Edges(program, before), t, chain[0])
  }

  lemma GenuineFromCaller(program: Program, before: set<Token>, between: set<Token>, after: set<Token>,
                          stack: seq<Token>, t: Token, d: Token, failure: Failure)
    requires before <= between <= after && t in program && t !in after && d in Needed(program[t].gets)
    requires t !in stack
    requires Genuine(program, between, after, stack + [t], d, failure)
    ensures Genuine(program, before, after, stack, t, failure)
  {
    var big, small := Edges(program, before), Edges(program, between);
    var x := match failure case NotFound(x) => x case Thrown(x) => x case Circular(chain) => chain[0];
    ReachMono(small, big, d, x);
    ReachEdge(big, t, d);
    ReachTrans(big, t, d, x);
    if failure.Circular? {
      RunsAlongBelow(program, after, stack, t, d, failure.chain);
    }
  }

  lemma RunsAlongBelow(program: Program, registered: set<Token>, stack: seq<Token>, t: Token, d: Token,
                       chain: seq<Token>)
    requires t in program && t !in registered && d in Needed(program[t].gets)
    requires RunsAlong(program, registered, stack + [t], d, chain)
    ensures RunsAlong(program, registered, stack, t, chain)
  {
    var pushed := stack + [t];
    forall i, j | 0 <= i < |chain| - 1 && 0 <= j < |stack| && chain[i] == stack[j]
      ensures chain[i + 1] == pushed[j + 1]
    {
      assert chain[i] == pushed[j];
      assert (pushed + [d])[j + 1] == pushed[j + 1];
    }
    forall i | 0 <= i < |chain| - 1 && chain[i] !in stack
      ensures Follows(Edges(program, registered), chain, i)
    {
      if chain[i] == t {
        assert chain[i] == pushed[|stack|];
        assert chain[i + 1] == d;
      }
    }
  }

  /** How many services there are. */
  ghost function Size(services: map<Token, Instance>): nat {
    |services|
  }

  /**
   `after` extends `before` with services that resolved without a fault, that hold new
   distinct instances, and whose constructor dependencies are all registered too; there
   is one for each constructor that returned meanwhile.
   */
  ghost predicate GrewSoundly(program: Program, before: map<Token, Instance>, from: int,
                              after: map<Token, Instance>, upTo: int, running: set<Token>)
  {
    && from <= upTo
    && Size(after) - Size(before) == upTo - from
    && (forall t :: t in before ==> t in after && after[t] == before[t])
    && (forall t :: t in after && t !in before ==>
          && t in program
          && !Faulty(program, before.Keys, running, t)
          && (forall d :: d in Needed(program[t].gets) ==> d in after)
          && after[t].Built? && from <= after[t].serial < upTo)
    && (forall t, u :: t in after && u in after && t !in before && u !in before && t != u ==>
          after[t] != after[u])
  }

  lemma GrewVerdict(program: Program, before: map<Token, Instance>, from: int,
                    after: map<Token, Instance>, upTo: int, running: set<Token>, t: Token)
    requires GrewSoundly(program, before, from, after, upTo, running)
    ensures Faulty(program, before.Keys, running, t) <==> Faulty(program, after.Keys, running, t)
  {
    VerdictUnchanged(program, before.Keys, after.Keys, running, t);
  }

  lemma GrewTwice(program: Program, m0: map<Token, Instance>, c0: int, m1: map<Token, Instance>, c1: int,
                  m2: map<Token, Instance>, c2: int, running: set<Token>)
    requires GrewSoundly(program, m0, c0, m1, c1, running)
    requires GrewSoundly(program, m1, c1, m2, c2, running)
    ensures GrewSoundly(program, m0, c0, m2, c2, running)
  {
    forall t | t in m2 && t !in m0
      ensures !Faulty(program, m0.Keys, running, t)
    {
      GrewVerdict(program, m0, c0, m1, c1, running, t);
    }
  }

  /** Registering a class whose constructor has just returned. */
  lemma GrewByOne(program: Program, m0: map<Token, Instance>, c0: int, m1: map<Token, Instance>, c1: int,
                  running: set<Token>, t: Token, instance: Instance)
    requires GrewSoundly(program, m0, c0, m1, c1, running)
    requires t in program && t !in m1 && !Faulty(program, m0.Keys, running, t)
    requires forall d :: d in Needed(program[t].gets) ==> d in m1
    requires c1 >= 0 && instance == Built(c1)
    ensures GrewSoundly(program, m0, c0, m1[t := instance], c1 + 1, running)
  {
  }

  lemma GrewKeeps(program: Program, m0: map<Token, Instance>, c0: int, m1: map<Token, Instance>, c1: int,
                  running: set<Token>)
    requires GrewSoundly(program, m0, c0, m1, c1, running)
    ensures m0.Keys <= m1.Keys && forall t :: t in m0 ==> m1[t] == m0[t]
  {
  }

  lemma GrewNone(program: Program, m: map<Token, Instance>, c: int, running: set<Token>)
    ensures GrewSoundly(program, m, c, m, c, running)
  {
  }

  lemma GrewFewerRunning(program: Program, m0: map<Token, Instance>, c0: int, m1: map<Token, Instance>, c1: int,
                         few: set<Token>, many: set<Token>)
    requires few <= many && GrewSoundly(program, m0, c0, m1, c1, many)
    ensures GrewSoundly(program, m0, c0, m1, c1, few)
  {
    forall t | t in m1 && t !in m0
      ensures !Faulty(program, m0.Keys, few, t)
    {
      if Faulty(program, m0.Keys, few, t) {
        FaultyFewerRunning(program, m0.Keys, few, many, t);
      }
    }
  }

  /** Lookup k of a constructor is made: no lookup in front of it fails uncaught. */
  ghost predicate Attempted(program: Program, registered: set<Token>, running: set<Token>, gets: seq<Lookup>, k: nat)
    requires k <= |gets|
  {
    forall j :: 0 <= j < k && !gets[j].caught ==> !Faulty(program, registered, running, gets[j].token)
  }

  /**
   What resolving t leaves registered, whether it succeeds or fails: each token its
   constructor gets to ask for that resolves, and behind each that fails the same again.
   */
  ghost predicate Kept(program: Program, registered: set<Token>, running: set<Token>, t: Token, after: set<Token>)
    decreases program.Keys - running, 0
  {
    t in program && t !in registered && t !in running ==>
      var gets, inside := program[t].gets, running + {t};
      forall k :: 0 <= k < |gets| && Attempted(program, registered, inside, gets, k) ==>
        KeptLookup(program, registered, inside, gets[k].token, after)
  }

  ghost predicate KeptLookup(program: Program, registered: set<Token>, running: set<Token>, d: Token, after: set<Token>)
    decreases program.Keys - running, 1
  {
    if Faulty(program, registered, running, d) then Kept(program, registered, running, d, after) else d in after
  }

  lemma {:induction false} KeptMore(program: Program, registered: set<Token>, running: set<Token>, t: Token,
                                    some: set<Token>, more: set<Token>)
    requires some <= more && Kept(program, registered, running, t, some)
    ensures Kept(program, registered, running, t, more)
    decreases program.Keys - running
  {
    hide Faulty, Attempted;
    if t in program && t !in registered && t !in running {
      var gets, inside := program[t].gets, running + {t};
      forall k | 0 <= k < |gets| && Attempted(program, registered, inside, gets, k)
        ensures KeptLookup(program, registered, inside, gets[k].token, more)
      {
        assert KeptLookup(program, registered, inside, gets[k].token, some);
        if Faulty(program, registered, inside, gets[k].token) {
          KeptMore(program, registered, inside, gets[k].token, some, more);
        }
      }
    }
  }

  /** While a token that fails is being resolved, what was registered changes no verdict under it. */
  lemma VerdictBehind(program: Program, before: set<Token>, after: set<Token>, running: set<Token>, t: Token, d: Token)
    requires before <= after && Faulty(program, before, running, t)
    requires forall n :: n in after - before ==> !Faulty(program, before, running, n)
    ensures Faulty(program, before, running + {t}, d) <==> Faulty(program, after, running + {t}, d)
  {
    forall n | n in after - before
      ensures !Faulty(program, before, running + {t}, n)
    {
      if Faulty(program, before, running + {t}, n) {
        var x: Token :| Reach(Edges(program, before), n, x) && IsFault(program, before, running + {t}, x);
        if x == t {
          var y: Token :| Reach(Edges(program, before), t, y) && IsFault(program, before, running, y);
          ReachTrans(Edges(program, before), n, t, y);
          FaultyBy(program, before, running, n, y);
        } else {
          FaultyBy(program, before, running, n, x);
        }
        assert false;
      }
    }
    VerdictUnchanged(program, before, after, running + {t}, d);
  }

  /** What a failing token leaves registered is the same, told from any registry that grew soundly. */
  lemma {:induction false} KeptFromEarlier(program: Program, before: set<Token>, between: set<Token>,
                                           running: set<Token>, t: Token, after: set<Token>)
    requires before <= between && Faulty(program, before, running, t)
    requires forall n :: n in between - before ==> !Faulty(program, before, running, n)
    requires Kept(program, between, running, t, after)
    ensures Kept(program, before, running, t, after)
    decreases program.Keys - running
  {
    if t in program && t !in before && t !in running {
      assert t !in between;
      var gets, inside := program[t].gets, running + {t};
      forall d
        ensures Faulty(program, before, inside, d) <==> Faulty(program, between, inside, d)
      {
        VerdictBehind(program, before, between, running, t, d);
      }
      forall n | n in between - before
        ensures !Faulty(program, before, inside, n)
      {
        RegisteredResolves(program, between, inside, n);
      }
      hide Faulty, Edges;
      forall k | 0 <= k < |gets| && Attempted(program, before, inside, gets, k)
        ensures KeptLookup(program, before, inside, gets[k].token, after)
      {
        assert Attempted(program, between, inside, gets, k);
        assert KeptLookup(program, between, inside, gets[k].token, after);
        if Faulty(program, before, inside, gets[k].token) {
          KeptFromEarlier(program, before, between, inside, gets[k].token, after);
        }
      }
    }
  }

  /**
   The failure that resolving t ends in: t is unknown, or running already, or its first
   uncaught lookup that fails ends in this failure, or there is none and t throws its own.
   */
  ghost predicate Reports(program: Program, registered: set<Token>, stack: seq<Token>, t: Token, failure: Failure)
    decreases program.Keys - Elems(stack)
  {
    if t !in program then failure == NotFound(t)
    else if t in stack then failure == Circular(stack[IndexOf(stack, t)..] + [t])
    else
      ElemsMore(stack, t);
      var gets, running := program[t].gets, Elems(stack + [t]);
      if Attempted(program, registered, running, gets, |gets|) then failure == Thrown(t)
      else
        forall k :: 0 <= k < |gets| && FirstFailing(program, registered, running, gets, k) ==>
          Reports(program, registered, stack + [t], gets[k].token, failure)
  }

  ghost predicate FirstFailing(program: Program, registered: set<Token>, running: set<Token>, gets: seq<Lookup>, k: nat)
    requires k < |gets|
  {
    && Attempted(program, registered, running, gets, k)
    && !gets[k].caught && Faulty(program, registered, running, gets[k].token)
  }

  lemma ElemsMore(stack: seq<Token>, t: Token)
    ensures Elems(stack + [t]) == Elems(stack) + {t}
  {
  }

  /** The failure is the same, told from any registry that grew soundly. */
  lemma {:induction false} ReportsFromEarlier(program: Program, before: set<Token>, between: set<Token>,
                                              stack: seq<Token>, t: Token, failure: Failure)
    requires before <= between && Faulty(program, before, Elems(stack), t)
    requires forall n :: n in between - before ==> !Faulty(program, before, Elems(stack), n)
    requires Reports(program, between, stack, t, failure)
    ensures Reports(program, before, stack, t, failure)
    decreases program.Keys - Elems(stack)
  {
    if t in program && t !in stack {
      ElemsMore(stack, t);
      var gets, inside, running := program[t].gets, stack + [t], Elems(stack + [t]);
      forall d
        ensures Faulty(program, before, running, d) <==> Faulty(program, between, running, d)
      {
        VerdictBehind(program, before, between, Elems(stack), t, d);
      }
      forall n | n in between - before
        ensures !Faulty(program, before, running, n)
      {
        RegisteredResolves(program, between, running, n);
      }
      hide Faulty, Edges, Elems;
      if !Attempted(program, before, running, gets, |gets|) {
        forall k | 0 <= k < |gets| && FirstFailing(program, before, running, gets, k)
          ensures Reports(program, before, inside, gets[k].token, failure)
        {
          assert FirstFailing(program, between, running, gets, k);
          ReportsFromEarlier(program, before, between, inside, gets[k].token, failure);
        }
      }
    }
  }

  /** What a constructor's first failing lookup ends in, the constructor ends in. */
  lemma ReportsFromLookup(program: Program, m0: map<Token, Instance>, c0: int, m1: map<Token, Instance>, c1: int,
                          stack: seq<Token>, t: Token, n: nat, failure: Failure)
    requires t in program && t !in stack && n < |program[t].gets|
    requires GrewSoundly(program, m0, c0, m1, c1, Elems(stack + [t]))
    requires FirstFailing(program, m0.Keys, Elems(stack + [t]), program[t].gets, n)
    requires Reports(program, m1.Keys, stack + [t], program[t].gets[n].token, failure)
    ensures Reports(program, m0.Keys, stack, t, failure)
  {
    ElemsMore(stack, t);
    var gets, inside := program[t].gets, stack + [t];
    hide Faulty, Elems;
    ReportsFromEarlier(program, m0.Keys, m1.Keys, inside, gets[n].token, failure);
    hide Reports;
    forall k | 0 <= k < |gets| && FirstFailing(program, m0.Keys, Elems(inside), gets, k)
      ensures k == n
    {
    }
    assert !Attempted(program, m0.Keys, Elems(inside), gets, |gets|);
    ReportsWhen(program, m0.Keys, stack, t, n, failure);
  }

  lemma ReportsWhen(program: Program, registered: set<Token>, stack: seq<Token>, t: Token, n: nat, failure: Failure)
    requires t in program && t !in stack && n < |program[t].gets|
    requires forall k :: 0 <= k < |program[t].gets| ==>
               FirstFailing(program, registered, Elems(stack + [t]), program[t].gets, k) ==> k == n
    requires !Attempted(program, registered, Elems(stack + [t]), program[t].gets, |program[t].gets|)
    requires Reports(program, registered, stack + [t], program[t].gets[n].token, failure)
    ensures Reports(program, registered, stack, t, failure)
  {
    hide Attempted, FirstFailing, Elems;
  }

  lemma ReportsThrow(program: Program, registered: set<Token>, stack: seq<Token>, t: Token)
    requires t in program && t !in stack
    requires Attempted(program, registered, Elems(stack + [t]), program[t].gets, |program[t].gets|)
    ensures Reports(program, registered, stack, t, Thrown(t))
  {
    hide Attempted, Elems;
  }

  lemma ReportsAtOnce(program: Program, registered: set<Token>, stack: seq<Token>, t: Token)
    ensures t !in program ==> Reports(program, registered, stack, t, NotFound(t))
    ensures t in program && t in stack ==>
              Reports(program, registered, stack, t, Circular(stack[IndexOf(stack, t)..] + [t]))
  {
  }

  lemma FailsFirst(program: Program, registered: set<Token>, running: set<Token>, gets: seq<Lookup>, n: nat)
    requires n < |gets| && !gets[n].caught && Faulty(program, registered, running, gets[n].token)
    requires forall k :: 0 <= k < n && !gets[k].caught ==> !Faulty(program, registered, running, gets[k].token)
    ensures FirstFailing(program, registered, running, gets, n)
  {
    hide Faulty;
  }

  lemma MadeAll(program: Program, registered: set<Token>, running: set<Token>, gets: seq<Lookup>)
    requires forall k :: 0 <= k < |gets| && !gets[k].caught ==> !Faulty(program, registered, running, gets[k].token)
    ensures Attempted(program, registered, running, gets, |gets|)
  {
    hide Faulty;
  }

  /** The first n lookups were made, and what each of them leaves is registered. */
  ghost predicate KeptSoFar(program: Program, registered: set<Token>, running: set<Token>, gets: seq<Lookup>, n: nat,
                            after: set<Token>)
    requires n <= |gets|
  {
    forall k :: 0 <= k < n ==> KeptLookup(program, registered, running, gets[k].token, after)
  }

  lemma KeptAtOnce(program: Program, registered: set<Token>, running: set<Token>, t: Token)
    requires t !in program || t in registered || t in running
    ensures Kept(program, registered, running, t, registered)
  {
  }

  lemma KeptNone(program: Program, registered: set<Token>, running: set<Token>, gets: seq<Lookup>, after: set<Token>)
    ensures KeptSoFar(program, registered, running, gets, 0, after)
  {
  }

  lemma KeptOneMore(program: Program, m0: map<Token, Instance>, c0: int, m1: map<Token, Instance>, c1: int,
                    running: set<Token>, gets: seq<Lookup>, n: nat, after: set<Token>)
    requires GrewSoundly(program, m0, c0, m1, c1, running) && m1.Keys <= after && n < |gets|
    requires KeptSoFar(program, m0.Keys, running, gets, n, m1.Keys)
    requires Kept(program, m1.Keys, running, gets[n].token, after)
    requires !Faulty(program, m0.Keys, running, gets[n].token) ==> gets[n].token in after
    ensures KeptSoFar(program, m0.Keys, running, gets, n + 1, after)
  {
    hide Faulty, Kept;
    forall k | 0 <= k < n
      ensures KeptLookup(program, m0.Keys, running, gets[k].token, after)
    {
      assert KeptLookup(program, m0.Keys, running, gets[k].token, m1.Keys);
      if Faulty(program, m0.Keys, running, gets[k].token) {
        KeptMore(program, m0.Keys, running, gets[k].token, m1.Keys, after);
      }
    }
    if Faulty(program, m0.Keys, running, gets[n].token) {
      KeptFromEarlier(program, m0.Keys, m1.Keys, running, gets[n].token, after);
    }
  }

  /** A constructor stops after n lookups: it has no more, or the last one failed uncaught. */
  lemma KeptAll(program: Program, registered: set<Token>, running: set<Token>, t: Token, n: nat, after: set<Token>)
    requires t in program && n <= |program[t].gets|
    requires KeptSoFar(program, registered, running + {t}, program[t].gets, n, after)
    requires n < |program[t].gets| ==> n > 0 && !program[t].gets[n - 1].caught
                                       && Faulty(program, registered, running + {t}, program[t].gets[n - 1].token)
    ensures Kept(program, registered, running, t, after)
  {
    hide Faulty;
    var gets, inside := program[t].gets, running + {t};
    forall k | 0 <= k < |gets| && Attempted(program, registered, inside, gets, k)
      ensures KeptLookup(program, registered, inside, gets[k].token, after)
    {
      assert k >= n ==> n < |gets|;
    }
  }

  lemma RegisteredResolves(program: Program, registered: set<Token>, running: set<Token>, t: Token)
    requires t in registered
    ensures !Faulty(program, registered, running, t)
  {
    if Faulty(program, registered, running, t) {
      var x: Token :| Reach(Edges(program, registered), t, x) && IsFault(program, registered, running, x);
      var _ := ReachFirst(Edges(program, registered), t, x);
      assert false;
    }
  }

  lemma GenuineThrow(program: Program, before: set<Token>, after: set<Token>, stack: seq<Token>, t: Token)
    requires t in program && program[t].throws && t !in after
    ensures Genuine(program, before, after, stack, t, Thrown(t))
  {
    ReachRefl(Edges(program, before), t);
  }

  lemma FaultyAtOnce(program: Program, registered: set<Token>, running: set<Token>, stack: seq<Token>, t: Token)
    requires t !in registered && (t !in program || program[t].throws || t in running)
    ensures Faulty(program, registered, running, t)
    ensures t !in program ==> Genuine(program, registered, registered, stack, t, NotFound(t))
  {
    ReachRefl(Edges(program, registered), t);
  }

  /** The running constructors are distinct unregistered classes, each one called by the one before it. */
  ghost predicate StackOk(program: Program, registered: set<Token>, stack: seq<Token>) {
    && Distinct(stack)
    && (forall t :: t in stack ==> t in program && t !in registered)
    && (forall i :: 0 <= i < |stack| - 1 ==> Calls(program, stack, i))
  }

  ghost predicate Calls(program: Program, stack: seq<Token>, i: int)
    requires 0 <= i < |stack| - 1 && stack[i] in program
  {
    stack[i + 1] in Asked(program[stack[i]].gets)
  }

  ghost predicate MayCall(program: Program, stack: seq<Token>, t: Token) {
    stack != [] ==> stack[|stack| - 1] in program && t in Asked(program[stack[|stack| - 1]].gets)
  }

  lemma PushOk(program: Program, registered: set<Token>, stack: seq<Token>, t: Token)
    requires StackOk(program, registered, stack) && MayCall(program, stack, t)
    requires t in program && t !in registered && t !in stack
    ensures StackOk(program, registered, stack + [t])
    ensures Elems(stack + [t]) == Elems(stack) + {t}
    ensures (stack + [t])[..|stack|] == stack
  {
    var pushed := stack + [t];
    forall i | 0 <= i < |pushed| - 1
      ensures Calls(program, pushed, i)
    {
      if i < |stack| - 1 {
        assert Calls(program, stack, i);
      }
    }
  }

  lemma PopOk(program: Program, registered: set<Token>, stack: seq<Token>, built: set<Token>)
    requires StackOk(program, registered, stack) && stack != []
    requires built <= {stack[|stack| - 1]}
    ensures StackOk(program, registered + built, stack[..|stack| - 1])
  {
    var rest := stack[..|stack| - 1];
    forall i | 0 <= i < |rest| - 1
      ensures Calls(program, rest, i)
    {
      assert Calls(program, stack, i);
    }
  }

  lemma TopOk(program: Program, registered: set<Token>, stack: seq<Token>)
    requires StackOk(program, registered, stack) && stack != []
    ensures var top := stack[|stack| - 1];
      && Elems(stack) == Elems(stack[..|stack| - 1]) + {top} && top !in Elems(stack[..|stack| - 1])
      && top in program && top !in registered
      && forall d :: d in Asked(program[top].gets) ==> MayCall(program, stack, d)
  {
    assert stack == stack[..|stack| - 1] + [stack[|stack| - 1]];
  }

  datatype Request =
    | GetOf(token: Token)
    | SetTo(token: Token, instance: Instance)
    | DeleteOf(token: Token)
    | ClearAll

  datatype Reply = Got(outcome: Outcome) | Done

  predicate Succeeded(reply: Reply) {
    reply.Got? && reply.outcome.Ok?
  }

  /** The requests that may change or drop the instance registered for t. */
  predicate Disturbs(request: Request, t: Token) {
    match request
    case GetOf(_) => false
    case SetTo(u, _) => u == t
    case DeleteOf(u) => u == t
    case ClearAll => true
  }

  ghost predicate Undisturbed(requests: seq<Request>, i: int, j: int)
    requires 0 <= i < |requests| && j <= |requests| && requests[i].GetOf?
  {
    forall k :: i < k < j ==> !Disturbs(requests[k], requests[i].token)
  }

  /** Requests i and j resolve one token, the first did, and nothing in between touched it. */
  ghost predicate SameInstanceDue(requests: seq<Request>, replies: seq<Reply>, i: int, j: int)
    requires 0 <= i < j < |replies| <= |requests|
  {
    && requests[i].GetOf? && requests[j] == requests[i] && Succeeded(replies[i])
    && Undisturbed(requests, i, j)
  }

  /** A token resolved and left alone since is still registered with the instance it resolved to. */
  ghost predicate Remembered(requests: seq<Request>, replies: seq<Reply>, services: map<Token, Instance>)
    requires |replies| <= |requests|
  {
    forall i ::
      0 <= i < |replies| && requests[i].GetOf? && Succeeded(replies[i]) && Undisturbed(requests, i, |replies|) ==>
      requests[i].token in services && services[requests[i].token] == replies[i].outcome.instance
  }

  ghost predicate SameSoFar(requests: seq<Request>, replies: seq<Reply>)
    requires |replies| <= |requests|
  {
    forall i, j :: 0 <= i < j < |replies| && SameInstanceDue(requests, replies, i, j) ==> replies[j] == replies[i]
  }

  /** What one request does to the registrations, and what it answers. */
  ghost predicate Answered(request: Request, reply: Reply, before: map<Token, Instance>, after: map<Token, Instance>) {
    match request
    case GetOf(t) =>
      && reply.Got?
      && (forall k :: k in before ==> k in after && after[k] == before[k])
      && (reply.outcome.Ok? ==> t in after && after[t] == reply.outcome.instance)
      && (t in before ==> reply.outcome.Ok?)
    case SetTo(t, instance) => reply == Done && after == before[t := instance]
    case DeleteOf(t) => reply == Done && after == before - {t}
    case ClearAll => reply == Done && after == map[]
  }

  lemma SessionStep(requests: seq<Request>, replies: seq<Reply>, reply: Reply,
                    before: map<Token, Instance>, after: map<Token, Instance>)
    requires |replies| < |requests| && SameSoFar(requests, replies) && Remembered(requests, replies, before)
    requires Answered(requests[|replies|], reply, before, after)
    ensures SameSoFar(requests, replies + [reply]) && Remembered(requests, replies + [reply], after)
  {
    var n, all := |replies|, replies + [reply];
    forall i | 0 <= i < n && requests[i].GetOf? && Succeeded(replies[i]) && Undisturbed(requests, i, n + 1)
      ensures requests[i].token in after && after[requests[i].token] == replies[i].outcome.instance
    {
      assert Undisturbed(requests, i, n);
      assert !Disturbs(requests[n], requests[i].token);
    }
    forall i, j | 0 <= i < j < n + 1 && SameInstanceDue(requests, all, i, j)
      ensures all[j] == all[i]
    {
      if j < n {
        assert SameInstanceDue(requests, replies, i, j);
      } else {
        assert Undisturbed(requests, i, n);
      }
    }
  }

  class Container {
    const program: Program
    var services: map<Token, Instance>
    var constructing: seq<Token>
    var completed: nat  // constructors that have returned so far

    constructor (program: Program)
      ensures Valid() && this.program == program
      ensures services == map[] && constructing == [] && completed == 0
    {
      this.program := program;
      services := map[];
      constructing := [];
      completed := 0;
    }

    ghost predicate Valid()
      reads this
    {
      StackOk(program, services.Keys, constructing)
    }

    /**
     `get`: from whatever is registered, it returns an instance exactly when no
     unregistered token, throwing constructor or cycle is in the way, and it leaves
     the stack of running constructors as it found it on every path out. Everything
     built on the way stays registered, also when it fails; and it fails with the
     failure of the first lookup, at every level, that fails and is not caught.
     */
    method Get(token: Token) returns (r: Outcome)
      requires Valid()
      requires MayCall(program, constructing, token)
      modifies this`services, this`constructing, this`completed
      ensures Valid() && constructing == old(constructing)
      ensures GrewSoundly(program, old(services), old(completed), services, completed, Elems(constructing))
      ensures r.Ok? <==> !Faulty(program, old(services.Keys), Elems(constructing), token)
      ensures r.Ok? ==> token in services && services[token] == r.instance
      ensures Kept(program, old(services.Keys), Elems(constructing), token, services.Keys)
      ensures r.Err? ==> Genuine(program, old(services.Keys), services.Keys, constructing, token, r.failure)
      ensures r.Err? ==> Reports(program, old(services.Keys), constructing, token, r.failure)
      decreases program.Keys - Elems(constructing), 1
    {
      hide Faulty, GrewSoundly, Size, Genuine, Kept, KeptSoFar, KeptLookup, Attempted, Reports, FirstFailing;
      hide Edges, Reach, OnCycle, StackOk, IsFault, Distinct;
      ghost var running := Elems(constructing);
      GrewNone(program, services, completed, running);
      if token !in program || token in services || token in constructing {
        KeptAtOnce(program, services.Keys, running, token);
        ReportsAtOnce(program, services.Keys, constructing, token);
      }
      if token !in services {
        if token !in program {
          FaultyAtOnce(program, services.Keys, running, constructing, token);
          return Err(NotFound(token));
        }
        if token in constructing {
          FaultyAtOnce(program, services.Keys, running, constructing, token);
          var start := IndexOf(constructing, token);
          ReentryIsCycle(program, services.Keys, constructing, start, token);
          return Err(Circular(constructing[start..] + [token]));
        }
        r := Enter(token);
      } else {
        RegisteredResolves(program, services.Keys, running, token);
        r := Ok(services[token]);
      }
    }

    /** The guarded part of `get`: push, construct and register, and pop on every path out. */
    method Enter(token: Token) returns (r: Outcome)
      requires Valid()
      requires MayCall(program, constructing, token)
      requires token in program && token !in services && token !in constructing
      modifies this`services, this`constructing, this`completed
      ensures Valid() && constructing == old(constructing)
      ensures GrewSoundly(program, old(services), old(completed), services, completed, Elems(constructing))
      ensures r.Ok? <==> !Faulty(program, old(services.Keys), Elems(constructing), token)
      ensures r.Ok? ==> token in services && services[token] == r.instance
      ensures Kept(program, old(services.Keys), Elems(constructing), token, services.Keys)
      ensures r.Err? ==> Genuine(program, old(services.Keys), services.Keys, constructing, token, r.failure)
      ensures r.Err? ==> Reports(program, old(services.Keys), constructing, token, r.failure)
      decreases program.Keys - Elems(constructing), 0
    {
      hide Faulty, GrewSoundly, Size, Genuine, Kept, KeptSoFar, KeptLookup, Attempted, Reports, FirstFailing;
      hide StackOk, Distinct, MayCall;
      PushOk(program, services.Keys, constructing, token);
      constructing := constructing + [token];
      r := Construct(token);
      PopOk(program, services.Keys, constructing, if r.Ok? then {token} else {});
      if r.Ok? {
        KeptMore(program, old(services.Keys), Elems(old(constructing)), token, services.Keys, services.Keys + {token});
        GrewByOne(program, old(services), old(completed), services, completed - 1, Elems(old(constructing)),
                  token, r.instance);
        assert services.Keys + {token} == services[token := r.instance].Keys;
        services := services[token := r.instance];
      } else {
        assert services.Keys + {} == services.Keys;
      }
      constructing := constructing[..|constructing| - 1];
    }

    /** `new token()`: the constructor's own `get` calls, in order. */
    method Construct(token: Token) returns (r: Outcome)
      requires Valid()
      requires constructing != [] && constructing[|constructing| - 1] == token
      modifies this`services, this`constructing, this`completed
      ensures Valid() && constructing == old(constructing)
      ensures token !in services
      ensures GrewSoundly(program, old(services), old(completed), services,
                          if r.Ok? then completed - 1 else completed,
                          Elems(constructing[..|constructing| - 1]))
      ensures r.Ok? <==> !Faulty(program, old(services.Keys), Elems(constructing[..|constructing| - 1]), token)
      ensures r.Ok? ==> forall d :: d in Needed(program[token].gets) ==> d in services
      ensures r.Ok? ==> r.instance.Built? && r.instance.serial + 1 == completed
      ensures Kept(program, old(services.Keys), Elems(constructing[..|constructing| - 1]), token, services.Keys)
      ensures r.Err? ==> Genuine(program, old(services.Keys), services.Keys, constructing[..|constructing| - 1], token,
                                 r.failure)
      ensures r.Err? ==> Reports(program, old(services.Keys), constructing[..|constructing| - 1], token, r.failure)
      decreases program.Keys - Elems(constructing), 2
    {
      hide Faulty, GrewSoundly, Size, Genuine, Kept, KeptSoFar, KeptLookup, Attempted, Reports, FirstFailing;
      hide Edges, Reach, OnCycle, StackOk, IsFault, Distinct;
      GrewNone(program, services, completed, Elems(constructing));
      TopOk(program, services.Keys, constructing);
      ghost var below := constructing[..|constructing| - 1];
      ghost var outer, running := Elems(below), Elems(constructing);
      assert constructing == below + [token] && running == outer + {token} && token !in outer;
      var gets := program[token].gets;
      KeptNone(program, old(services.Keys), running, gets, services.Keys);
      for i := 0 to |gets|
        invariant Valid() && constructing == old(constructing)
        invariant GrewSoundly(program, old(services), old(completed), services, completed, running)
        invariant forall k :: 0 <= k < i && !gets[k].caught ==>
                    gets[k].token in services && !Faulty(program, old(services.Keys), running, gets[k].token)
        invariant KeptSoFar(program, old(services.Keys), running, gets, i, services.Keys)
      {
        ghost var m1, c1 := services, completed;
        assert gets[i].token in Asked(gets);
        r := Get(gets[i].token);
        GrewKeeps(program, old(services), old(completed), m1, c1, running);
        GrewKeeps(program, m1, c1, services, completed, running);
        GrewVerdict(program, old(services), old(completed), m1, c1, running, gets[i].token);
        KeptOneMore(program, old(services), old(completed), m1, c1, running, gets, i, services.Keys);
        GrewTwice(program, old(services), old(completed), m1, c1, services, completed, running);
        if r.Err? && !gets[i].caught {
          FailsFirst(program, old(services.Keys), running, gets, i);
          ReportsFromLookup(program, old(services), old(completed), m1, c1, below, token, i, r.failure);
          KeptAll(program, old(services.Keys), outer, token, i + 1, services.Keys);
          assert gets[i].token in Needed(gets);
          TopOk(program, services.Keys, constructing);
          GrewFewerRunning(program, old(services), old(completed), services, completed, outer, running);
          GenuineFromCaller(program, old(services.Keys), m1.Keys, services.Keys, below, token, gets[i].token,
                            r.failure);
          if !program[token].throws {
            FaultyStep(program, old(services.Keys), outer, token);
          } else {
            FaultyAtOnce(program, old(services.Keys), outer, below, token);
          }
          return;
        }
      }
      KeptAll(program, old(services.Keys), outer, token, |gets|, services.Keys);
      TopOk(program, services.Keys, constructing);
      GrewFewerRunning(program, old(services), old(completed), services, completed, outer, running);
      if program[token].throws {
        FaultyAtOnce(program, old(services.Keys), outer, below, token);
        MadeAll(program, old(services.Keys), running, gets);
        ReportsThrow(program, old(services.Keys), below, token);
        GenuineThrow(program, old(services.Keys), services.Keys, below, token);
        return Err(Thrown(token));
      }
      FaultyStep(program, old(services.Keys), outer, token);
      r := Ok(Built(completed));
      completed := completed + 1;
    }

    method Set(token: Token, instance: Instance)
      modifies this`services
      ensures services == old(services)[token := instance]
    {
      services := services[token := instance];
    }

    method Has(token: Token) returns (b: bool)
      ensures b <==> token in services
    {
      b := token in services;
    }

    method Delete(token: Token) returns (removed: bool)
      modifies this`services
      ensures removed <==> token in old(services)
      ensures services == old(services) - {token}
    {
      removed := token in services;
      services := services - {token};
    }

    method Clear()
      modifies this`services
      ensures services == map[]
    {
      services := map[];
    }

    /**
     Any sequence of requests made while no constructor runs. Once a token has
     resolved, every later `get` of it returns the same instance until a `set`,
     `delete` or `clear` touches it; and as long as nothing but `get` is called,
     each verdict is the one the registry at the start decides.
     */
    method Session(requests: seq<Request>) returns (replies: seq<Reply>)
      requires Valid() && constructing == []
      modifies this`services, this`constructing, this`completed
      ensures Valid() && constructing == []
      ensures |replies| == |requests|
      ensures forall i, j :: 0 <= i < j < |requests| && SameInstanceDue(requests, replies, i, j) ==>
                replies[j] == replies[i]
      ensures (forall k :: 0 <= k < |requests| ==> requests[k].GetOf?) ==>
                forall i :: 0 <= i < |requests| ==>
                  (Succeeded(replies[i]) <==> !Faulty(program, old(services.Keys), {}, requests[i].token))
    {
      hide Faulty, Genuine, GrewSoundly, Size, Remembered, SameSoFar, SameInstanceDue;
      replies := [];
      NothingYet(requests, services);
      GrewNone(program, services, completed, {});
      ghost var start, zero := services, completed;
      for n := 0 to |requests|
        invariant Valid() && constructing == []
        invariant |replies| == n && SameSoFar(requests, replies) && Remembered(requests, replies, services)
        invariant (forall k :: 0 <= k < n ==> requests[k].GetOf?) ==>
                    GrewSoundly(program, start, zero, services, completed, {})
        invariant (forall k :: 0 <= k < n ==> requests[k].GetOf?) ==>
                    forall i :: 0 <= i < n ==>
                      (Succeeded(replies[i]) <==> !Faulty(program, start.Keys, {}, requests[i].token))
      {
        assert Elems(constructing) == {};
        ghost var m1, c1 := services, completed;
        var reply := Done;
        match requests[n] {
          case GetOf(t) =>
            var r := Get(t);
            reply := Got(r);
            if t in m1 {
              RegisteredResolves(program, m1.Keys, {}, t);
            }
            GrewKeeps(program, m1, c1, services, completed, {});
            if forall k :: 0 <= k < n ==> requests[k].GetOf? {
              GrewVerdict(program, start, zero, m1, c1, {}, t);
              GrewTwice(program, start, zero, m1, c1, services, completed, {});
            }
          case SetTo(t, instance) =>
            Set(t, instance);
          case DeleteOf(t) =>
            var removed := Delete(t);
          case ClearAll =>
            Clear();
        }
        SessionStep(requests, replies, reply, m1, services);
        replies := replies + [reply];
      }
      AllTheSame(requests, replies);
    }
  }

  lemma NothingYet(requests: seq<Request>, services: map<Token, Instance>)
    ensures SameSoFar(requests, []) && Remembered(requests, [], services)
  {
  }

  lemma AllTheSame(requests: seq<Request>, replies: seq<Reply>)
    requires |replies| == |requests| && SameSoFar(requests, replies)
    ensures forall i, j :: 0 <= i < j < |requests| && SameInstanceDue(requests, replies, i, j) ==>
            replies[j] == replies[i]
  {
  }

  /** Re-entering a running constructor closes a real cycle along the stack. */
  lemma ReentryIsCycle(program: Program, registered: set<Token>, stack: seq<Token>, start: nat, token: Token)
    requires StackOk(program, registered, stack) && start < |stack| && stack[start] == token
    requires MayCall(program, stack, token)
    ensures Genuine(program, registered, registered, stack, token, Circular(stack[start..] + [token]))
  {
    ReachRefl(Edges(program, registered), token);
    var chain := stack[start..] + [token];
    assert forall i :: 0 <= i < |chain| - 1 ==> chain[i] == stack[start + i];
    forall i | 0 <= i < |chain| - 1
      ensures Follows(CallEdges(program, registered), chain, i)
    {
      if i < |chain| - 2 {
        assert Calls(program, stack, start + i);
      }
    }
    forall i, j | 0 <= i < |chain| - 1 && 0 <= j < |stack| && chain[i] == stack[j]
      ensures chain[i + 1] == (stack + [token])[j + 1]
    {
      assert j == start + i;
    }
  }
}
