/**
 * The part of Redis that `init_redis` drives: one keyspace whose keys hold
 * either a string or a set of strings, the commands SET and SADD, and a
 * redis-py pipeline that stages commands and sends them in one go.
 */
module Cache {

  /** What a key holds. Strings and sets share one keyspace, as in Redis. */
  datatype Value = Str(text: string) | Members(members: set<string>)

  type Keyspace = map<string, Value>

  datatype Command =
    | SetCmd(key: string, value: string)
    | SAddCmd(name: string, member: string)

  /** The reply to one command: OK, the number of members added, or WRONGTYPE. */
  datatype Reply = Okay | Added(count: nat) | WrongType

  /** The key a command writes. */
  function Target(c: Command): string {
    match c
    case SetCmd(k, _) => k
    case SAddCmd(n, _) => n
  }

  /** The members a key holds as a set; a missing key is the empty set. */
  function SetMembers(s: Keyspace, name: string): set<string> {
    if name in s && s[name].Members? then s[name].members else {}
  }

  /**
   * The effect of one command. SET replaces whatever the key held; SADD
   * creates the set or adds to it, and leaves a key holding a string alone.
   * Only the command's own key can change and no key disappears.
   */
  function Apply(s: Keyspace, c: Command): (r: Keyspace)
    ensures r.Keys == s.Keys + {Target(c)}
    ensures forall k :: k in s && k != Target(c) ==> r[k] == s[k]
    ensures c.SetCmd? ==> r[c.key] == Str(c.value)
    ensures c.SAddCmd? && !(c.name in s && s[c.name].Str?) ==>
      r[c.name] == Members(SetMembers(s, c.name) + {c.member})
    ensures c.SAddCmd? && c.name in s && s[c.name].Str? ==> r == s
  {
    match c
    case SetCmd(k, v) => s[k := Str(v)]
    case SAddCmd(n, m) =>
      if n in s && s[n].Str? then s else s[n := Members(SetMembers(s, n) + {m})]
  }

  /** The reply Redis gives to a command run against `s`. */
  function ReplyOf(s: Keyspace, c: Command): (r: Reply)
    ensures r == WrongType <==> c.SAddCmd? && c.name in s && s[c.name].Str?
  {
    match c
    case SetCmd(_, _) => Okay
    case SAddCmd(n, m) =>
      if n in s && s[n].Str? then WrongType
      else if m in SetMembers(s, n) then Added(0) else Added(1)
  }

  /** The keyspace after running `cmds` in order from `s`. */
  function Final(s: Keyspace, cmds: seq<Command>): Keyspace {
    if cmds == [] then s else Apply(Final(s, cmds[..|cmds| - 1]), cmds[|cmds| - 1])
  }

  /** The replies to `cmds` run in order from `s`, one per command. */
  function Replies(s: Keyspace, cmds: seq<Command>): (r: seq<Reply>)
    ensures |r| == |cmds|
  {
    if cmds == [] then []
    else
      var init := cmds[..|cmds| - 1];
      Replies(s, init) + [ReplyOf(Final(s, init), cmds[|cmds| - 1])]
  }

  /**
   * Running commands never deletes a key, and a key that no command targets
   * keeps its value.
   */
  lemma {:induction false} FinalFrame(s: Keyspace, cmds: seq<Command>)
    ensures s.Keys <= Final(s, cmds).Keys
    ensures forall k :: k in s && (forall i :: 0 <= i < |cmds| ==> Target(cmds[i]) != k) ==>
      Final(s, cmds)[k] == s[k]
    decreases |cmds|
  {
    if cmds != [] {
      var init := cmds[..|cmds| - 1];
      FinalFrame(s, init);
      forall k | k in s && (forall i :: 0 <= i < |cmds| ==> Target(cmds[i]) != k)
        ensures Final(s, cmds)[k] == s[k]
      {
        assert forall i :: 0 <= i < |init| ==> init[i] == cmds[i];
        assert Target(cmds[|cmds| - 1]) != k;
      }
    }
  }

  /** Reply `i` is the reply to command `i` run on the keyspace left by the ones before it. */
  lemma {:induction false} ReplyAt(s: Keyspace, cmds: seq<Command>, i: int)
    requires 0 <= i < |cmds|
    ensures Replies(s, cmds)[i] == ReplyOf(Final(s, cmds[..i]), cmds[i])
    decreases |cmds|
  {
    var init := cmds[..|cmds| - 1];
    if i < |cmds| - 1 {
      ReplyAt(s, init, i);
      assert init[..i] == cmds[..i];
    }
  }

  /** Running one more command of a sequence. */
  lemma RunOneMore(s: Keyspace, cmds: seq<Command>, i: int)
    requires 0 <= i < |cmds|
    ensures Final(s, cmds[..i + 1]) == Apply(Final(s, cmds[..i]), cmds[i])
    ensures Replies(s, cmds[..i + 1]) == Replies(s, cmds[..i]) + [ReplyOf(Final(s, cmds[..i]), cmds[i])]
  {
    assert cmds[..i + 1][..i] == cmds[..i];
  }

  /** Running two more commands: the keyspace and the replies they add. */
  lemma RunTwoMore(s: Keyspace, cmds: seq<Command>, c1: Command, c2: Command)
    ensures var t := Apply(Final(s, cmds), c1);
      && Final(s, cmds + [c1, c2]) == Apply(t, c2)
      && Replies(s, cmds + [c1, c2]) == Replies(s, cmds) + [ReplyOf(Final(s, cmds), c1), ReplyOf(t, c2)]
  {
    var all := cmds + [c1, c2];
    assert all[..|all| - 1] == cmds + [c1];
    assert (cmds + [c1])[..|cmds|] == cmds;
  }

  /** A Redis server: the keyspace of the selected logical database. */
  class Store {
    var data: Keyspace

    constructor (initial: Keyspace)
      ensures data == initial
    {
      data := initial;
    }
  }

  /**
   * A non-transactional redis-py pipeline bound to a store: `Set` and `SAdd`
   * only stage a command; `Execute` sends them all, in order, and empties
   * the pipeline.
   */
  class Pipeline {
    const store: Store
    var staged: seq<Command>

    constructor (store: Store)
      ensures this.store == store && staged == []
    {
      this.store := store;
      staged := [];
    }

    method Set(key: string, value: string)
      modifies this
      ensures staged == old(staged) + [SetCmd(key, value)]
    {
      staged := staged + [SetCmd(key, value)];
    }

    method SAdd(name: string, member: string)
      modifies this
      ensures staged == old(staged) + [SAddCmd(name, member)]
    {
      staged := staged + [SAddCmd(name, member)];
    }

    /**
     * Runs every staged command against the store. A command that fails
     * (WRONGTYPE) does not stop the ones after it; its reply is in `replies`.
     */
    method Execute() returns (replies: seq<Reply>)
      modifies this, store
      ensures store.data == Final(old(store.data), old(staged))
      ensures replies == Replies(old(store.data), old(staged))
      ensures staged == []
    {
      var cmds := staged;
      replies := [];
      var i := 0;
      while i < |cmds|
        invariant 0 <= i <= |cmds|
        invariant store.data == Final(old(store.data), cmds[..i])
        invariant replies == Replies(old(store.data), cmds[..i])
      {
        RunOneMore(old(store.data), cmds, i);
        replies := replies + [ReplyOf(store.data, cmds[i])];
        store.data := Apply(store.data, cmds[i]);
        i := i + 1;
      }
      assert cmds[..|cmds|] == cmds;
      staged := [];
    }
  }
}
