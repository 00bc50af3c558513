/** Trying passphrases for an encrypted entry: a linked list that is rotated, and a callback behind it. */
module Passphrases {
  import opened Bytes

  const MAX_RETRY: nat := 10000

  /** A passphrase; only whether it decrypts matters here. */
  datatype Phrase = Phrase(text: string)

  /** A passphrase, or C's null pointer. */
  type Answer = Option<Phrase>

  /** What a call returns and the state it leaves. */
  datatype Outcome = Outcome(answer: Answer, keys: Keys)

  /** The user's callback, by number of the call, and whether memory can then be had for its answer. */
  datatype Env = Env(hasCallback: bool, callback: nat -> Answer, memory: nat -> bool)

  /** The stored passphrases, how many candidates are left (negative: not counted yet), and how often
      the callback has been called. */
  datatype Keys = Keys(list: seq<Phrase>, candidate: int, calls: nat)

  function Rotated(list: seq<Phrase>): (r: seq<Phrase>)
    ensures |r| == |list|
  {
    if list == [] then [] else list[1..] + [list[0]]
  }

  lemma RotateFrom(list: seq<Phrase>, i: nat)
    requires i < |list|
    ensures Rotated(list[i..] + list[..i]) == list[i + 1..] + list[..i + 1]
  {
  }

  predicate ValidKeys(k: Keys) {
    k.candidate <= |k.list|
  }

  function FromCallback(k: Keys, env: Env): (r: Outcome)
    ensures ValidKeys(k) && k.candidate <= 0 ==> ValidKeys(r.keys)
  {
    if !env.hasCallback then Outcome(None, k)
    else
      var answer := env.callback(k.calls);
      if answer.None? || !env.memory(k.calls) then Outcome(None, k.(calls := k.calls + 1))
      else Outcome(answer, Keys([answer.value] + k.list, 1, k.calls + 1))
  }

  /** The passphrase to try next. */
  function Next(k: Keys, env: Env): (r: Outcome)
    requires ValidKeys(k)
    ensures ValidKeys(r.keys)
  {
    if k.candidate < 0 then
      var counted := k.(candidate := |k.list|);
      if k.list == [] then FromCallback(counted, env) else Outcome(Some(k.list[0]), counted)
    else if k.candidate > 1 then
      var rotated := k.(list := Rotated(k.list), candidate := k.candidate - 1);
      Outcome(Some(rotated.list[0]), rotated)
    else
      FromCallback(k.(list := if k.candidate == 1 then Rotated(k.list) else k.list, candidate := 0), env)
  }

  /** The state after `n` calls. */
  ghost function After(k: Keys, env: Env, n: nat): (r: Keys)
    requires ValidKeys(k)
    ensures ValidKeys(r)
  {
    if n == 0 then k else Next(After(k, env, n - 1), env).keys
  }

  /** What call number `i` (from 0) returns. */
  ghost function Tried(k: Keys, env: Env, i: nat): Answer
    requires ValidKeys(k)
  {
    Next(After(k, env, i), env).answer
  }

  /** Fair and in order: the stored passphrases come out one after another, each once. */
  lemma {:induction false} EachInTurn(k: Keys, env: Env, i: nat)
    requires ValidKeys(k) && k.candidate < 0 && i < |k.list|
    ensures Tried(k, env, i) == Some(k.list[i])
    ensures After(k, env, i + 1) == Keys(k.list[i..] + k.list[..i], |k.list| - i, k.calls)
  {
    if i == 0 {
      assert k.list[0..] + k.list[..0] == k.list;
      assert After(k, env, 0) == k;
    } else {
      EachInTurn(k, env, i - 1);
      RotateFrom(k.list, i - 1);
    }
  }

  /** Then, and not before, the callback is asked, with the list back in its original order. */
  lemma BackInOrder(k: Keys, env: Env)
    requires ValidKeys(k) && k.candidate < 0
    ensures var n := |k.list|;
            && (n > 0 ==> After(k, env, n).calls == k.calls)
            && Next(After(k, env, n), env) == FromCallback(Keys(k.list, 0, k.calls), env)
  {
    var n := |k.list|;
    if n > 0 {
      EachInTurn(k, env, n - 1);
      RotateFrom(k.list, n - 1);
      assert k.list[n..] + k.list[..n] == k.list;
    }
  }

  ghost predicate AllAnswer(env: Env, c: nat, m: nat) {
    m == 0 || (AllAnswer(env, c, m - 1) && env.callback(c + m - 1).Some? && env.memory(c + m - 1))
  }

  /** The callback's first `m` answers from call number `c` on. */
  ghost function Answers(env: Env, c: nat, m: nat): (r: seq<Phrase>)
    requires AllAnswer(env, c, m)
    ensures |r| == m
  {
    if m == 0 then [] else Answers(env, c, m - 1) + [env.callback(c + m - 1).value]
  }

  /** After `n` failed answers of the callback and one more, the failed ones have piled up at the tail in the order
      in which they arrived. */
  lemma {:induction false} FailedAtTail(k: Keys, env: Env, n: nat)
    requires k.candidate == 0 && env.hasCallback && AllAnswer(env, k.calls, n + 1)
    ensures var failed, x := Answers(env, k.calls, n), env.callback(k.calls + n).value;
            && After(k, env, n + 1) == Keys([x] + (k.list + failed), 1, k.calls + n + 1)
            && Tried(k, env, n) == Some(x)
  {
    var failed := Answers(env, k.calls, n);
    if n == 0 {
      FirstFails(k, env);
      assert k.list + failed == k.list;
    } else {
      FailedAtTail(k, env, n - 1);
      OneMoreFails(k, env, n, env.callback(k.calls + n - 1).value, Answers(env, k.calls, n - 1));
    }
  }

  lemma FirstFails(k: Keys, env: Env)
    requires k.candidate == 0 && env.hasCallback && env.callback(k.calls).Some? && env.memory(k.calls)
    ensures var x := env.callback(k.calls).value;
            After(k, env, 1) == Keys([x] + k.list, 1, k.calls + 1) && Tried(k, env, 0) == Some(x)
  {
    assert After(k, env, 0) == k;
  }

  lemma OneMoreFails(k: Keys, env: Env, n: nat, head: Phrase, tail: seq<Phrase>)
    requires ValidKeys(k) && After(k, env, n) == Keys([head] + (k.list + tail), 1, k.calls + n)
    requires env.hasCallback && env.callback(k.calls + n).Some? && env.memory(k.calls + n)
    ensures var x := env.callback(k.calls + n).value;
            && After(k, env, n + 1) == Keys([x] + (k.list + (tail + [head])), 1, k.calls + n + 1)
            && Tried(k, env, n) == Some(x)
  {
    RotateHead(head, k.list, tail);
  }

  lemma RotateHead(x: Phrase, list: seq<Phrase>, tail: seq<Phrase>)
    ensures Rotated([x] + (list + tail)) == list + (tail + [x])
  {
  }

  /** An answer that does not come, or cannot be kept, is not returned, and the stored passphrases stay as they are. */
  lemma NothingKept(k: Keys, env: Env)
    requires k.candidate == 0
    requires env.hasCallback ==> env.callback(k.calls).None? || !env.memory(k.calls)
    ensures var next := Next(k, env);
            && next.answer == None && next.keys.list == k.list && next.keys.candidate == 0
            && next.keys.calls == if env.hasCallback then k.calls + 1 else k.calls
  {
  }

  class Node {
    const passphrase: Phrase
    var next: Node?

    constructor (passphrase: Phrase)
      ensures this.passphrase == passphrase && next == null
    {
      this.passphrase := passphrase;
      next := null;
    }
  }

  ghost function Texts(nodes: seq<Node>): (r: seq<Phrase>)
    ensures |r| == |nodes|
  {
    seq(|nodes|, i requires 0 <= i < |nodes| => nodes[i].passphrase)
  }

  class PassphraseList {
    var first: Node?
    // The node whose `next` field `last` points to; null when it points to `first`.
    var last: Node?
    var candidate: int
    var calls: nat
    const env: Env
    ghost var nodes: seq<Node>
    ghost var repr: set<Node>

    ghost predicate Linked()
      reads this`first, this`last, this`nodes, this`repr, repr
    {
      && (forall i {:trigger nodes[i]} :: 0 <= i < |nodes| ==> nodes[i] in repr)
      && (if nodes == [] then first == null && last == null
          else first == nodes[0] && last == nodes[|nodes| - 1])
      && (forall i {:trigger nodes[i].next} :: 0 <= i < |nodes| ==>
            nodes[i].next == if i + 1 < |nodes| then nodes[i + 1] else null)
      && (forall i, j :: 0 <= i < j < |nodes| ==> nodes[i] != nodes[j])
    }

    ghost predicate Valid()
      reads this, repr
    {
      Linked() && candidate <= |nodes|
    }

    ghost function State(): Keys
      reads this
    {
      Keys(Texts(nodes), candidate, calls)
    }

    constructor (env: Env)
      ensures Valid() && nodes == [] && repr == {} && candidate == -1 && calls == 0 && this.env == env
    {
      first, last, candidate, calls, nodes, repr := null, null, -1, 0, [], {};
      this.env := env;
    }

    method InsertToHead(p: Node)
      requires Linked() && p !in repr
      modifies this`first, this`last, this`nodes, this`repr, p`next
      ensures Linked() && repr == old(repr) + {p} && nodes == [p] + old(nodes)
              && Texts(nodes) == [p.passphrase] + Texts(old(nodes))
    {
      p.next := first;
      first := p;
      if last == null {
        last := p;
        p.next := null;
      }
      nodes, repr := [p] + nodes, repr + {p};
    }

    /** Move the first of several nodes to the tail. */
    method Rotate()
      requires Linked() && |nodes| >= 2
      modifies this`first, this`last, this`nodes, repr
      ensures Linked() && |nodes| == |old(nodes)| && Texts(nodes) == Rotated(Texts(old(nodes)))
    {
      var p := first;
      first := p.next;
      last.next := p;
      last := p;
      p.next := null;
      nodes := nodes[1..] + [nodes[0]];
      assert Texts(nodes) == Texts(old(nodes))[1..] + [Texts(old(nodes))[0]];
    }

    method Count() returns (cnt: nat)
      requires Linked()
      ensures cnt == |nodes|
    {
      cnt := 0;
      var p := first;
      while p != null
        invariant cnt <= |nodes| && p == if cnt < |nodes| then nodes[cnt] else null
        decreases |nodes| - cnt
      {
        cnt := cnt + 1;
        p := p.next;
      }
    }

    /** Ask the callback for a passphrase, and keep it. */
    method AskCallback() returns (passphrase: Answer)
      requires Valid() && candidate == 0
      modifies this`calls, this`candidate, this`first, this`last, this`nodes, this`repr
      ensures Valid() && Outcome(passphrase, State()) == FromCallback(old(State()), env)
      ensures fresh(repr - old(repr))
    {
      if !env.hasCallback {
        return None;
      }
      passphrase := env.callback(calls);
      calls := calls + 1;
      if passphrase.Some? {
        if !env.memory(calls - 1) {
          return None;
        }
        Keep(passphrase.value);
      }
    }

    /** Store a passphrase at the head, as the one candidate. */
    method Keep(passphrase: Phrase)
      requires Valid()
      modifies this`candidate, this`first, this`last, this`nodes, this`repr
      ensures Valid() && fresh(repr - old(repr))
      ensures State() == Keys([passphrase] + Texts(old(nodes)), 1, calls)
    {
      var p := new Node(passphrase);
      InsertToHead(p);
      candidate := 1;
    }

    method NextPassphrase() returns (passphrase: Answer)
      requires Valid()
      modifies this, repr
      ensures Valid() && Outcome(passphrase, State()) == Next(old(State()), env)
      ensures fresh(repr - old(repr))
    {
      hide FromCallback;
      var p: Node?;
      if candidate < 0 {
        candidate := Count();
        p := first;
      } else if candidate > 1 {
        candidate := candidate - 1;
        Rotate();
        p := first;
      } else if candidate == 1 {
        candidate := 0;
        if first.next != null {
          Rotate();
        } else {
          assert Rotated(Texts(nodes)) == Texts(nodes);
        }
        p := null;
      } else {
        p := null;
      }

      if p != null {
        passphrase := Some(p.passphrase);
      } else {
        passphrase := AskCallback();
      }
    }

    /** The state is that after `n` calls from state `k`. */
    ghost predicate Ran(k: Keys, n: nat)
      reads this, repr
    {
      Valid() && ValidKeys(k) && State() == After(k, env, n)
    }

    /** Call number `n` of a run that began in state `k`. */
    method Attempt(ghost k: Keys, ghost n: nat) returns (passphrase: Answer)
      requires Ran(k, n)
      modifies this, repr
      ensures Ran(k, n + 1) && fresh(repr - old(repr))
      ensures passphrase == Tried(k, env, n)
    {
      passphrase := NextPassphrase();
    }
  }

  predicate Opens(t: Answer, decrypts: Phrase -> bool) {
    t.Some? && decrypts(t.value)
  }

  /** The first `n` calls all give passphrases, and none of them opens the entry. */
  ghost predicate AllFail(k: Keys, env: Env, decrypts: Phrase -> bool, n: nat)
    requires ValidKeys(k)
  {
    n == 0 || (AllFail(k, env, decrypts, n - 1) && Tried(k, env, n - 1).Some? && !Opens(Tried(k, env, n - 1), decrypts))
  }

  lemma {:induction false} FailsAt(k: Keys, env: Env, decrypts: Phrase -> bool, n: nat, i: nat)
    requires ValidKeys(k) && AllFail(k, env, decrypts, n) && i < n
    ensures Tried(k, env, i).Some? && !Opens(Tried(k, env, i), decrypts)
  {
    if i < n - 1 {
      FailsAt(k, env, decrypts, n - 1, i);
    }
  }

  /** How the search may end after `attempts` calls: the last passphrase opens the entry, or there was
      none, or there have been too many; all before it have failed. */
  ghost predicate Ends(k: Keys, env: Env, decrypts: Phrase -> bool, attempts: nat, code: int)
    requires ValidKeys(k)
  {
    && 0 < attempts <= MAX_RETRY + 2
    && AllFail(k, env, decrypts, attempts - 1)
    && var t := Tried(k, env, attempts - 1);
       if Opens(t, decrypts) then code == ARCHIVE_OK
       else code == ARCHIVE_FAILED && (t == None || attempts == MAX_RETRY + 2)
  }

  lemma EndsNow(k: Keys, env: Env, decrypts: Phrase -> bool, retry: nat)
    requires ValidKeys(k) && retry <= MAX_RETRY + 1 && AllFail(k, env, decrypts, retry)
    ensures var t := Tried(k, env, retry);
            && (t == None ==> Ends(k, env, decrypts, retry + 1, ARCHIVE_FAILED))
            && (t.Some? && decrypts(t.value) ==> Ends(k, env, decrypts, retry + 1, ARCHIVE_OK))
            && (t.Some? && !decrypts(t.value) ==>
                  AllFail(k, env, decrypts, retry + 1) &&
                  (retry == MAX_RETRY + 1 ==> Ends(k, env, decrypts, retry + 1, ARCHIVE_FAILED)))
  {
  }

  /** Of the stored passphrases, and however the search ends: it ends with one of them exactly when one of the
      first 10002 opens the entry, and then with the first that does. */
  lemma StoredIsFound(k: Keys, env: Env, decrypts: Phrase -> bool, attempts: nat, code: int)
    requires ValidKeys(k) && k.candidate < 0 && Ends(k, env, decrypts, attempts, code)
    ensures FoundAmong(k.list, decrypts, attempts, code) <==>
            exists i :: 0 <= i < |k.list| && i < 10002 && decrypts(k.list[i])
    ensures |k.list| >= 10002 ==> (code == ARCHIVE_OK <==> FoundAmong(k.list, decrypts, attempts, code))
  {
    if i :| 0 <= i < |k.list| && i < MAX_RETRY + 2 && decrypts(k.list[i]) {
      FoundByThen(k, env, decrypts, attempts, code, i);
    }
    if attempts <= |k.list| {
      EachInTurn(k, env, attempts - 1);
    }
  }

  /** The search ended with a stored passphrase, the first that opens the entry. */
  predicate FoundAmong(list: seq<Phrase>, decrypts: Phrase -> bool, attempts: nat, code: int) {
    && code == ARCHIVE_OK && 0 < attempts <= |list| && attempts <= MAX_RETRY + 2
    && decrypts(list[attempts - 1]) && forall i :: 0 <= i < attempts - 1 ==> !decrypts(list[i])
  }

  lemma FoundByThen(k: Keys, env: Env, decrypts: Phrase -> bool, attempts: nat, code: int, i: nat)
    requires ValidKeys(k) && k.candidate < 0 && Ends(k, env, decrypts, attempts, code)
    requires i < |k.list| && i < MAX_RETRY + 2 && decrypts(k.list[i])
    ensures attempts <= i + 1 && FoundAmong(k.list, decrypts, attempts, code)
  {
    hide Tried, After;
    EachInTurn(k, env, i);
    if attempts - 1 > i {
      FailsAt(k, env, decrypts, attempts - 1, i);
    }
    EachInTurn(k, env, attempts - 1);
    forall n | 0 <= n < attempts - 1
      ensures !decrypts(k.list[n])
    {
      FailsAt(k, env, decrypts, attempts - 1, n);
      EachInTurn(k, env, n);
    }
  }

  /** The one passphrase that opens the entry is stored, but behind 10002 others: the search fails. */
  lemma StoredTooFarBack(wrong: Phrase, right: Phrase, env: Env, attempts: nat, code: int)
    requires wrong != right
    requires Ends(Keys(seq(10002, _ => wrong) + [right], -1, 0), env, p => p == right, attempts, code)
    ensures code == ARCHIVE_FAILED && attempts == 10002
  {
    var list := seq(10002, _ => wrong) + [right];
    var k := Keys(list, -1, 0);
    StoredIsFound(k, env, p => p == right, attempts, code);
    EachInTurn(k, env, attempts - 1);
  }

  /** One turn of the retry loop. */
  method TryOne(a: PassphraseList, decrypts: Phrase -> bool, retry: nat, ghost k: Keys) returns (done: bool, code: int)
    requires a.Ran(k, retry) && retry <= MAX_RETRY + 1 && AllFail(k, a.env, decrypts, retry)
    modifies a, a.repr
    ensures a.Ran(k, retry + 1) && fresh(a.repr - old(a.repr))
    ensures done ==> Ends(k, a.env, decrypts, retry + 1, code)
    ensures !done ==> AllFail(k, a.env, decrypts, retry + 1) && retry <= MAX_RETRY
  {
    var passphrase := a.Attempt(k, retry);
    EndsNow(k, a.env, decrypts, retry);
    if passphrase.None? {
      return true, ARCHIVE_FAILED;
    }
    if decrypts(passphrase.value) {
      return true, ARCHIVE_OK;
    }
    return retry > MAX_RETRY, ARCHIVE_FAILED;
  }

  lemma NothingTried(a: PassphraseList, decrypts: Phrase -> bool, k: Keys)
    requires a.Valid() && a.State() == k
    ensures a.Ran(k, 0) && AllFail(k, a.env, decrypts, 0)
  {
  }

  /** Try passphrases until one decrypts the header, none is left, or too many have failed. */
  method FindPassphrase(a: PassphraseList, decrypts: Phrase -> bool, ghost k: Keys)
    returns (code: int, ghost attempts: nat)
    requires a.Valid() && a.State() == k
    modifies a, a.repr
    ensures a.Ran(k, attempts)
    ensures Ends(k, a.env, decrypts, attempts, code)
  {
    hide Ends, AllFail, After, Texts;
    var retry := 0;
    NothingTried(a, decrypts, k);
    while true
      invariant a.Ran(k, retry) && retry <= MAX_RETRY + 1
      invariant fresh(a.repr - old(a.repr))
      invariant AllFail(k, a.env, decrypts, retry)
      decreases MAX_RETRY + 2 - retry
    {
      var done;
      done, code := TryOne(a, decrypts, retry, k);
      if done {
        return code, retry + 1;
      }
      retry := retry + 1;
    }
  }
}
