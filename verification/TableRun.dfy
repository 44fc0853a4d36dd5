/** Whole runs of the hash table of src/hash.c, from hashTableCreate to hashTableDispose. */
module TableRun {
  import opened CStrings
  import opened Memory
  import opened HashTables

  datatype Op = Set(key: string, value: object) | Get(key: string) | Delete(key: string)

  ghost predicate Proper(ops: seq<Op>) {
    forall i :: 0 <= i < |ops| ==> NUL !in ops[i].key
  }

  /** The pointer op i returns: what its key stood for, as the operations before it left it. */
  function Outcome(ops: seq<Op>, i: nat): object?
    requires i < |ops|
  {
    Standing(ops, i, ops[i].key)
  }

  /** What the first n operations leave a key standing for: the value of the last one that wrote it. */
  function Standing(ops: seq<Op>, n: nat, k: string): object?
    requires n <= |ops|
  {
    if n == 0 then null
    else if ops[n - 1].key == k && !ops[n - 1].Get? then
      if ops[n - 1].Set? then ops[n - 1].value else null
    else Standing(ops, n - 1, k)
  }

  /** The table stands for what the first n operations leave behind. */
  ghost predicate Reflects(content: map<string, object?>, ops: seq<Op>, n: nat)
    requires n <= |ops|
  {
    forall k: string :: Standing(ops, n, k) == if k in content then content[k] else null
  }

  /** A key stands for the value of a set exactly when that set is the last operation to have written it. */
  lemma {:induction false} LastWriteStands(ops: seq<Op>, n: nat, k: string, j: nat)
    requires j < n <= |ops| && ops[j].key == k && !ops[j].Get?
    requires forall i :: j < i < n ==> ops[i].key != k || ops[i].Get?
    ensures Standing(ops, n, k) == if ops[j].Set? then ops[j].value else null
  {
    if n - 1 > j {
      LastWriteStands(ops, n - 1, k, j);
    }
  }

  /** A key no operation has written stands for nothing. */
  lemma {:induction false} UnwrittenStandsForNothing(ops: seq<Op>, n: nat, k: string)
    requires n <= |ops| && forall i :: 0 <= i < n ==> ops[i].key != k || ops[i].Get?
    ensures Standing(ops, n, k) == null
  {
    if n > 0 {
      UnwrittenStandsForNothing(ops, n - 1, k);
    }
  }

  /** Any run: every call returns what its key stood for, and at the end every block is free again. */
  method Run(mem: Ledger, size: nat, hashFunc: string -> nat, ops: seq<Op>) returns (returned: seq<object?>)
    requires Proper(ops) && forall k :: hashFunc(k) < size
    modifies mem
    ensures |returned| == |ops| && forall i :: 0 <= i < |ops| ==> returned[i] == Outcome(ops, i)
    ensures mem.live == old(mem.live)
  {
    hide HashTable.Valid, HashTable.Repr;
    var table := new HashTable(mem, size, hashFunc);
    returned := [];
    for n := 0 to |ops|
      invariant fresh(table.Repr()) && table.Valid() && Reflects(table.view.content, ops, n)
      invariant mem.live == old(mem.live) + table.Repr() && table.mem == mem
      invariant |returned| == n && forall i :: 0 <= i < n ==> returned[i] == Outcome(ops, i)
    {
      var value := Execute(table, ops[n]);
      returned := returned + [value];
    }
    table.Dispose();
  }

  method Execute(table: HashTable, op: Op) returns (value: object?)
    requires table.Valid() && table.Repr() <= table.mem.live && NUL !in op.key
    modifies table.Repr(), table.mem
    ensures table.Valid() && forall o :: o in table.Repr() ==> o in old(table.Repr()) || fresh(o)
    ensures value == if op.key in old(table.view.content) then old(table.view.content)[op.key] else null
    ensures table.view.content == match op
      case Set(k, v) => old(table.view.content)[k := v]
      case Get(_) => old(table.view.content)
      case Delete(k) => old(table.view.content) - {k}
    ensures table.mem.live - table.Repr() == old(table.mem.live) - old(table.Repr()) && table.Repr() <= table.mem.live
  {
    hide HashTable.Valid, HashTable.Repr;
    var key := Literal(op.key);
    match op {
      case Set(_, v) => value := table.Set(key, 0, v);
      case Get(_) => value := table.Get(key, 0);
      case Delete(_) => value := table.Delete(key, 0);
    }
  }
}
