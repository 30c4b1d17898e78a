/**
 * `init_redis`: for every eligible user, SET `<prefix><id>` to "1" and SADD
 * the id to `<set_name>`, staged on one pipeline and executed together.
 *
 * `Expected` is the keyspace the refresh is meant to produce, written in one
 * piece; `PipelineOutcome` proves that running the staged commands one by
 * one produces it. The other lemmas derive from it that every flag key
 * holds "1", that the set gains exactly the ids, that no key is deleted and
 * that a second run changes nothing.
 */
module Loader {
  import opened Decimal
  import opened Cache
  import Eligibility

  type UserPair = Eligibility.UserPair

  // ---------------------------------------------------------------------
  // The commands staged for a user list

  /** `f"{prefix}{uid}"` */
  function FlagKey(prefix: string, uid: int): string {
    prefix + DecimalText(uid)
  }

  /** Under one prefix, distinct users get distinct flag keys. */
  lemma FlagKeyInjective(prefix: string, a: int, b: int)
    ensures FlagKey(prefix, a) == FlagKey(prefix, b) <==> a == b
  {
    assert FlagKey(prefix, a)[|prefix|..] == DecimalText(a);
    assert FlagKey(prefix, b)[|prefix|..] == DecimalText(b);
    DecimalTextInjective(a, b);
  }

  /** `pipe.set(key, "1")` then `pipe.sadd(set_name, uid)` for one user. */
  function UserCommands(u: UserPair, prefix: string, setName: string): seq<Command> {
    [SetCmd(FlagKey(prefix, u.0), "1"), SAddCmd(setName, DecimalText(u.0))]
  }

  /** Everything the loop stages for `users`, in order. */
  function Staged(users: seq<UserPair>, prefix: string, setName: string): (r: seq<Command>)
    ensures |r| == 2 * |users|
  {
    if users == [] then []
    else
      var init := users[..|users| - 1];
      Staged(init, prefix, setName) + UserCommands(users[|users| - 1], prefix, setName)
  }

  /** User `i`'s commands sit at positions `2i` (SET) and `2i + 1` (SADD). */
  lemma {:induction false} StagedAt(users: seq<UserPair>, prefix: string, setName: string, i: int)
    requires 0 <= i < |users|
    ensures var r := Staged(users, prefix, setName);
      && r[2 * i] == SetCmd(FlagKey(prefix, users[i].0), "1")
      && r[2 * i + 1] == SAddCmd(setName, DecimalText(users[i].0))
    decreases |users|
  {
    var init := users[..|users| - 1];
    if i < |users| - 1 {
      StagedAt(init, prefix, setName, i);
    }
  }

  // ---------------------------------------------------------------------
  // The keyspace the refresh produces

  /** The flag keys of `users`. */
  function FlagKeys(users: seq<UserPair>, prefix: string): set<string> {
    if users == [] then {}
    else FlagKeys(users[..|users| - 1], prefix) + {FlagKey(prefix, users[|users| - 1].0)}
  }

  /** The set members of `users`: their ids as decimal text. */
  function Ids(users: seq<UserPair>): set<string> {
    if users == [] then {}
    else Ids(users[..|users| - 1]) + {DecimalText(users[|users| - 1].0)}
  }

  lemma {:induction false} FlagKeysHas(users: seq<UserPair>, prefix: string, x: string)
    ensures x in FlagKeys(users, prefix) <==> exists u :: u in users && x == FlagKey(prefix, u.0)
    decreases |users|
  {
    if users != [] {
      var init, last := users[..|users| - 1], users[|users| - 1];
      FlagKeysHas(init, prefix, x);
      assert users == init + [last];
      if exists u :: u in users && x == FlagKey(prefix, u.0) {
        var u :| u in users && x == FlagKey(prefix, u.0);
        if u != last {
          assert u in init;
        }
      }
      if exists u :: u in init && x == FlagKey(prefix, u.0) {
        var u :| u in init && x == FlagKey(prefix, u.0);
        assert u in users;
      }
    }
  }

  lemma {:induction false} IdsHas(users: seq<UserPair>, x: string)
    ensures x in Ids(users) <==> exists u :: u in users && x == DecimalText(u.0)
    decreases |users|
  {
    if users != [] {
      var init, last := users[..|users| - 1], users[|users| - 1];
      IdsHas(init, x);
      assert users == init + [last];
      if exists u :: u in users && x == DecimalText(u.0) {
        var u :| u in users && x == DecimalText(u.0);
        if u != last {
          assert u in init;
        }
      }
      if exists u :: u in init && x == DecimalText(u.0) {
        var u :| u in init && x == DecimalText(u.0);
        assert u in users;
      }
    }
  }

  /**
   * The aggregate set cannot receive the ids: its name is one of the flag
   * keys (the SET turns it into a string first) or it already holds a
   * string. Redis then answers some SADD with WRONGTYPE.
   */
  predicate Clash(s: Keyspace, users: seq<UserPair>, prefix: string, setName: string) {
    users != [] && (setName in FlagKeys(users, prefix) || (setName in s && s[setName].Str?))
  }

  /** What `set_name` holds after the refresh. */
  function SetAfter(s: Keyspace, users: seq<UserPair>, prefix: string, setName: string): Value {
    if setName in FlagKeys(users, prefix) then Str("1")
    else if setName in s && s[setName].Str? then s[setName]
    else Members(SetMembers(s, setName) + Ids(users))
  }

  /**
   * The keyspace after the refresh of `users`, stated key by key without
   * running anything: `set_name` holds `SetAfter`, every other flag key
   * holds "1", every other key keeps its value.
   */
  function Expected(s: Keyspace, users: seq<UserPair>, prefix: string, setName: string): Keyspace {
    if users == [] then s
    else
      map x | x in s.Keys + FlagKeys(users, prefix) + {setName} ::
        if x == setName then SetAfter(s, users, prefix, setName)
        else if x in FlagKeys(users, prefix) then Str("1")
        else s[x]
  }

  // ---------------------------------------------------------------------
  // Running the staged commands

  /** Running the staged commands in order yields `Expected`. */
  lemma {:induction false} PipelineOutcome(s: Keyspace, users: seq<UserPair>, prefix: string, setName: string)
    ensures Final(s, Staged(users, prefix, setName)) == Expected(s, users, prefix, setName)
    decreases |users|
  {
    if users != [] {
      var init := users[..|users| - 1];
      var u := users[|users| - 1];
      var k, m := FlagKey(prefix, u.0), DecimalText(u.0);
      var c := Staged(init, prefix, setName);
      assert users == init + [u];
      assert Staged(users, prefix, setName) == c + [SetCmd(k, "1"), SAddCmd(setName, m)];
      PipelineOutcome(s, init, prefix, setName);
      RunTwoMore(s, c, SetCmd(k, "1"), SAddCmd(setName, m));
      StepState(s, init, u, prefix, setName);
    }
  }

  /** Redis answers WRONGTYPE to one of the staged commands exactly when there is a clash. */
  lemma {:induction false} PipelineErrors(s: Keyspace, users: seq<UserPair>, prefix: string, setName: string)
    ensures WrongType in Replies(s, Staged(users, prefix, setName)) <==> Clash(s, users, prefix, setName)
    decreases |users|
  {
    if users != [] {
      var init := users[..|users| - 1];
      var u := users[|users| - 1];
      var k, m := FlagKey(prefix, u.0), DecimalText(u.0);
      var c := Staged(init, prefix, setName);
      assert users == init + [u];
      var e1 := Expected(s, init, prefix, setName)[k := Str("1")];
      var rs, r2 := Replies(s, c), ReplyOf(e1, SAddCmd(setName, m));
      assert Replies(s, Staged(users, prefix, setName)) == rs + [Okay, r2] by {
        assert Staged(users, prefix, setName) == c + [SetCmd(k, "1"), SAddCmd(setName, m)];
        PipelineOutcome(s, init, prefix, setName);
        RunTwoMore(s, c, SetCmd(k, "1"), SAddCmd(setName, m));
      }
      assert WrongType in rs + [Okay, r2] <==> WrongType in rs || r2 == WrongType;
      PipelineErrors(s, init, prefix, setName);
      StepReply(s, init, u, prefix, setName);
      assert Clash(s, init, prefix, setName) ==> Clash(s, users, prefix, setName);
    }
  }

  /** The keys present after the refresh. */
  lemma ExpectedKeys(s: Keyspace, users: seq<UserPair>, prefix: string, setName: string)
    ensures Expected(s, users, prefix, setName).Keys ==
      if users == [] then s.Keys else s.Keys + FlagKeys(users, prefix) + {setName}
  {
  }

  /** What `set_name` holds once the SET for one more user has run. */
  lemma SetNameBeforeSAdd(s: Keyspace, init: seq<UserPair>, u: UserPair, prefix: string, setName: string)
    ensures var k := FlagKey(prefix, u.0);
      var e1 := Expected(s, init, prefix, setName)[k := Str("1")];
      && (setName in e1 && e1[setName].Str? <==> Clash(s, init + [u], prefix, setName))
      && (setName !in e1 || e1[setName].Members? ==> SetMembers(e1, setName) == SetMembers(s, setName) + Ids(init))
  {
    var users := init + [u];
    var k := FlagKey(prefix, u.0);
    assert users[..|users| - 1] == init;
    assert FlagKeys(users, prefix) == FlagKeys(init, prefix) + {k};
    var e := Expected(s, init, prefix, setName);
    if setName != k {
      if init == [] {
        assert e == s;
      } else {
        ExpectedKeys(s, init, prefix, setName);
        assert e[setName] == SetAfter(s, init, prefix, setName);
      }
    }
  }

  /** One more user: its SADD is refused exactly when the longer list clashes. */
  lemma StepReply(s: Keyspace, init: seq<UserPair>, u: UserPair, prefix: string, setName: string)
    ensures var k := FlagKey(prefix, u.0);
      var e1 := Expected(s, init, prefix, setName)[k := Str("1")];
      ReplyOf(e1, SAddCmd(setName, DecimalText(u.0))) == WrongType <==>
        Clash(s, init + [u], prefix, setName)
  {
    SetNameBeforeSAdd(s, init, u, prefix, setName);
  }

  /** One more user: its SET and SADD take `Expected` for the shorter list to `Expected` for the longer. */
  lemma StepState(s: Keyspace, init: seq<UserPair>, u: UserPair, prefix: string, setName: string)
    ensures var k := FlagKey(prefix, u.0);
      var e1 := Expected(s, init, prefix, setName)[k := Str("1")];
      Apply(e1, SAddCmd(setName, DecimalText(u.0))) == Expected(s, init + [u], prefix, setName)
  {
    var k, m := FlagKey(prefix, u.0), DecimalText(u.0);
    var e := Expected(s, init, prefix, setName);
    var lhs := Apply(e[k := Str("1")], SAddCmd(setName, m));
    var rhs := Expected(s, init + [u], prefix, setName);
    assert lhs.Keys == rhs.Keys by {
      var users := init + [u];
      assert users[..|users| - 1] == init;
      ExpectedKeys(s, init, prefix, setName);
      ExpectedKeys(s, users, prefix, setName);
      assert lhs.Keys == e.Keys + {k, setName};
    }
    assert lhs[setName] == rhs[setName] by {
      StepAtSetName(s, init, u, prefix, setName);
    }
    forall x | x in lhs && x != setName ensures lhs[x] == rhs[x] {
      StepAt(s, init, u, prefix, setName, x);
    }
  }

  /** One more user, at `set_name`. */
  lemma StepAtSetName(s: Keyspace, init: seq<UserPair>, u: UserPair, prefix: string, setName: string)
    ensures var lhs := Apply(Expected(s, init, prefix, setName)[FlagKey(prefix, u.0) := Str("1")], SAddCmd(setName, DecimalText(u.0)));
      var rhs := Expected(s, init + [u], prefix, setName);
      setName in lhs && setName in rhs && lhs[setName] == rhs[setName]
  {
    var users := init + [u];
    var k, m := FlagKey(prefix, u.0), DecimalText(u.0);
    assert users[..|users| - 1] == init;
    assert FlagKeys(users, prefix) == FlagKeys(init, prefix) + {k};
    assert Ids(users) == Ids(init) + {m};
    SetNameBeforeSAdd(s, init, u, prefix, setName);
  }

  /** One more user, at a key other than `set_name`. */
  lemma StepAt(s: Keyspace, init: seq<UserPair>, u: UserPair, prefix: string, setName: string, x: string)
    requires x != setName
    requires x in Apply(Expected(s, init, prefix, setName)[FlagKey(prefix, u.0) := Str("1")], SAddCmd(setName, DecimalText(u.0)))
    ensures var lhs := Apply(Expected(s, init, prefix, setName)[FlagKey(prefix, u.0) := Str("1")], SAddCmd(setName, DecimalText(u.0)));
      var rhs := Expected(s, init + [u], prefix, setName);
      x in rhs && lhs[x] == rhs[x]
  {
    var users := init + [u];
    var k := FlagKey(prefix, u.0);
    assert users[..|users| - 1] == init;
    assert FlagKeys(users, prefix) == FlagKeys(init, prefix) + {k};
    var e := Expected(s, init, prefix, setName);
    var lhs := Apply(e[k := Str("1")], SAddCmd(setName, DecimalText(u.0)));
    if x != k {
      assert lhs[x] == e[x];
    }
  }

  /** A second refresh with the same users changes nothing. */
  lemma ExpectedIdempotent(s: Keyspace, users: seq<UserPair>, prefix: string, setName: string)
    ensures var e := Expected(s, users, prefix, setName);
      Expected(e, users, prefix, setName) == e
  {
  }

  /** Running `init_redis` twice with the same arguments leaves what running it once leaves. */
  lemma RefreshIdempotent(s: Keyspace, users: seq<UserPair>, prefix: string, setName: string)
    ensures var cmds := Staged(users, prefix, setName);
      Final(Final(s, cmds), cmds) == Final(s, cmds)
  {
    var cmds := Staged(users, prefix, setName);
    PipelineOutcome(s, users, prefix, setName);
    PipelineOutcome(Final(s, cmds), users, prefix, setName);
    ExpectedIdempotent(s, users, prefix, setName);
  }

  /**
   * Without a clash the refresh is additive: every flag key holds "1",
   * the aggregate set is its old members plus the users' ids, every other
   * key is untouched and no key disappears.
   */
  lemma RefreshIsAdditive(s: Keyspace, users: seq<UserPair>, prefix: string, setName: string)
    requires users != [] && !Clash(s, users, prefix, setName)
    ensures var t := Final(s, Staged(users, prefix, setName));
      && s.Keys <= t.Keys
      && (forall u :: u in users ==> FlagKey(prefix, u.0) in t && t[FlagKey(prefix, u.0)] == Str("1"))
      && setName in t && t[setName] == Members(SetMembers(s, setName) + Ids(users))
      && (forall k :: k in t && k != setName && k !in FlagKeys(users, prefix) ==> k in s && t[k] == s[k])
      && WrongType !in Replies(s, Staged(users, prefix, setName))
  {
    PipelineOutcome(s, users, prefix, setName);
    PipelineErrors(s, users, prefix, setName);
    forall u | u in users ensures FlagKey(prefix, u.0) in FlagKeys(users, prefix) {
      FlagKeysHas(users, prefix, FlagKey(prefix, u.0));
    }
  }

  /** A member is in the aggregate set after the refresh iff it was before or is a user's id. */
  lemma SetGainsExactlyTheIds(s: Keyspace, users: seq<UserPair>, prefix: string, setName: string, x: string)
    requires users != [] && !Clash(s, users, prefix, setName)
    ensures var t := Final(s, Staged(users, prefix, setName));
      x in SetMembers(t, setName) <==> x in SetMembers(s, setName) || exists u :: u in users && x == DecimalText(u.0)
  {
    PipelineOutcome(s, users, prefix, setName);
    IdsHas(users, x);
  }

  // ---------------------------------------------------------------------
  // init_redis

  const NoUsersMessage := "Nenhum usuário elegível encontrado (n=0)."

  function DryRunLine(u: UserPair, prefix: string, setName: string): string {
    "[dry-run] SET " + FlagKey(prefix, u.0) + " 1 ; SADD " + setName + " " + DecimalText(u.0)
  }

  /** The lines the dry run prints, one per user, in order. */
  function DryRunLines(users: seq<UserPair>, prefix: string, setName: string): (r: seq<string>) {
    seq(|users|, i requires 0 <= i < |users| => DryRunLine(users[i], prefix, setName))
  }

  /** One more user: the staged commands and the dry-run lines grow by that user's share. */
  lemma LoopStep(users: seq<UserPair>, i: int, prefix: string, setName: string)
    requires 0 <= i < |users|
    ensures Staged(users[..i + 1], prefix, setName) ==
      Staged(users[..i], prefix, setName) + [SetCmd(FlagKey(prefix, users[i].0), "1"), SAddCmd(setName, DecimalText(users[i].0))]
    ensures DryRunLines(users[..i + 1], prefix, setName) ==
      DryRunLines(users[..i], prefix, setName) + [DryRunLine(users[i], prefix, setName)]
  {
    assert users[..i + 1][..i] == users[..i];
  }

  /** What executing the staged pipeline does, in one statement. */
  lemma RefreshOutcome(s: Keyspace, users: seq<UserPair>, prefix: string, setName: string)
    ensures Final(s, Staged(users, prefix, setName)) == Expected(s, users, prefix, setName)
    ensures WrongType in Replies(s, Staged(users, prefix, setName)) <==> Clash(s, users, prefix, setName)
  {
    PipelineOutcome(s, users, prefix, setName);
    PipelineErrors(s, users, prefix, setName);
  }

  function DryRunSummary(n: nat): string {
    "[dry-run] Simulação concluída: " + DecimalText(n) + " comandos."
  }

  function DoneMessage(n: nat): string {
    "Inicialização concluída: " + DecimalText(n) + " usuários marcados no Redis."
  }

  /**
   * `init_redis(users, r, prefix, set_name, dry_run)`. `log` is what it
   * prints; `failed` is true when `pipe.execute()` raises because a command
   * was answered with an error (every command has run by then).
   */
  method InitRedis(users: seq<UserPair>, r: Store, prefix: string, setName: string, dryRun: bool)
    returns (log: seq<string>, failed: bool)
    modifies r
    ensures users == [] ==> r.data == old(r.data) && log == [NoUsersMessage] && !failed
    ensures users != [] && dryRun ==>
      && r.data == old(r.data) && !failed
      && log == DryRunLines(users, prefix, setName) + [DryRunSummary(|users|)]
    ensures users != [] && !dryRun ==>
      && r.data == Expected(old(r.data), users, prefix, setName)
      && failed == Clash(old(r.data), users, prefix, setName)
    ensures users != [] && !dryRun ==> log == if failed then [] else [DoneMessage(|users|)]
  {
    if users == [] {
      return [NoUsersMessage], false;
    }
    ghost var s0 := r.data;
    var pipe := new Pipeline(r);
    log := [];
    var i := 0;
    while i < |users|
      invariant 0 <= i <= |users|
      invariant pipe.store == r && r.data == s0
      invariant pipe.staged == if dryRun then [] else Staged(users[..i], prefix, setName)
      invariant dryRun ==> log == DryRunLines(users[..i], prefix, setName)
      invariant !dryRun ==> log == []
    {
      var uid := users[i].0;
      var key := FlagKey(prefix, uid);
      LoopStep(users, i, prefix, setName);
      if dryRun {
        log := log + [DryRunLine(users[i], prefix, setName)];
      } else {
        pipe.Set(key, "1");
        pipe.SAdd(setName, DecimalText(uid));
      }
      i := i + 1;
    }
    assert users[..|users|] == users;
    if !dryRun {
      var replies := pipe.Execute();
      RefreshOutcome(s0, users, prefix, setName);
      failed := WrongType in replies;
      if !failed {
        log := [DoneMessage(|users|)];
      }
    } else {
      log := log + [DryRunSummary(|users|)];
      failed := false;
    }
  }
}
