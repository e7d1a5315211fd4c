/** The shared context store: versioned JSON values, merged by JSON merge patch (RFC 7396). */
module ContextStore {
  import opened Json
  import opened Wrappers

  // ----- JSON merge patch, section 2 of RFC 7396 -----

  function Fields(j: Json): map<string, Json> {
    if j.JObject? then j.fields else map[]
  }

  /** A patch that is not an object replaces the target. An object patch turns the target into an object,
      drops the members it names with null, and merges the others member by member. */
  function MergePatch(target: Json, patch: Json): Json
    decreases patch
  {
    if !patch.JObject? then patch
    else
      var t := Fields(target);
      JObject(map k | k in t.Keys + patch.fields.Keys && !(k in patch.fields && patch.fields[k].JNull?) ::
                if k in patch.fields then MergePatch(if k in t then t[k] else JNull, patch.fields[k]) else t[k])
  }

  /** The value a path of member names leads to. */
  function At(j: Json, path: seq<string>): Option<Json> {
    if path == [] then Some(j)
    else if j.JObject? && path[0] in j.fields then At(j.fields[path[0]], path[1..])
    else None
  }

  /** The path leaves the patch at some object that does not mention its next name. */
  predicate Unmentioned(patch: Json, path: seq<string>) {
    && path != [] && patch.JObject?
    && (path[0] in patch.fields ==> Unmentioned(patch.fields[path[0]], path[1..]))
  }

  /** Whatever the patch does not mention, at any depth, is as it was in the target. */
  lemma {:induction false} UnmentionedIsKept(target: Json, patch: Json, path: seq<string>)
    requires Unmentioned(patch, path)
    ensures At(MergePatch(target, patch), path) == At(target, path)
    decreases |path|
  {
    var k, t := path[0], Fields(target);
    if k !in patch.fields {
    } else {
      UnmentionedIsKept(if k in t then t[k] else JNull, patch.fields[k], path[1..]);
    }
  }

  /** The value at a path, or null. */
  function AtOrNull(j: Json, path: seq<string>): Json {
    if At(j, path).Some? then At(j, path).value else JNull
  }

  /** Whatever the patch gives, at any depth, is in the result: a null removes the member, an object makes the member
      an object, and any other value is there as it is. What stands at the path is the given value merged into what
      the target had in that place. */
  lemma {:induction false} GivenIsWritten(target: Json, patch: Json, path: seq<string>)
    requires path != [] && At(patch, path).Some?
    ensures var given, r := At(patch, path).value, At(MergePatch(target, patch), path);
            if given.JNull? then r == None
            else if given.JObject? then r.Some? && r.value.JObject?
            else r == Some(given)
    ensures !At(patch, path).value.JNull? ==>
              At(MergePatch(target, patch), path) ==
              Some(MergePatch(AtOrNull(target, path), At(patch, path).value))
    decreases |path|
  {
    var k, t := path[0], Fields(target);
    var below := if k in t then t[k] else JNull;
    if |path| == 1 {
      assert path[1..] == [] && At(patch.fields[k], []) == Some(patch.fields[k]);
      assert At(below, path[1..]) == Some(below) && AtOrNull(target, path) == below;
      if !patch.fields[k].JNull? {
        assert MergePatch(target, patch).fields[k] == MergePatch(below, patch.fields[k]);
      }
    } else {
      GivenIsWritten(below, patch.fields[k], path[1..]);
    }
  }

  /** Below a member the patch gives a value that is not an object, nothing of the target is left. */
  lemma {:induction false} BelowGivenIsGone(target: Json, patch: Json, path: seq<string>)
    requires patch.JObject? && path != [] && !Unmentioned(patch, path) && At(patch, path).None?
    ensures At(MergePatch(target, patch), path) == None
    decreases |path|
  {
    var k, t := path[0], Fields(target);
    if !patch.fields[k].JObject? {
    } else {
      BelowGivenIsGone(if k in t then t[k] else JNull, patch.fields[k], path[1..]);
    }
  }

  /** What section 2 of RFC 7396 asks of the result at one path. */
  ghost predicate MergedAt(result: Json, target: Json, patch: Json, path: seq<string>) {
    if Unmentioned(patch, path) then At(result, path) == At(target, path)
    else match At(patch, path)
      case None => At(result, path) == None
      case Some(given) =>
        if given.JNull? then At(result, path) == None
        else if given.JObject? then At(result, path).Some? && At(result, path).value.JObject?
        else At(result, path) == Some(given)
  }

  /** A patch that is not an object is the result; an object patch makes an object that is right at every path. */
  ghost predicate IsMerge(result: Json, target: Json, patch: Json) {
    if !patch.JObject? then result == patch
    else result.JObject? && forall path :: path != [] ==> MergedAt(result, target, patch, path)
  }

  lemma OneStepDown(j: Json, k: string, path: seq<string>)
    ensures At(j, [k] + path) == if k in Fields(j) then At(Fields(j)[k], path) else None
  {
    assert ([k] + path)[1..] == path;
  }

  lemma OneMember(j: Json, k: string)
    ensures At(j, [k]) == if k in Fields(j) then Some(Fields(j)[k]) else None
    ensures k in Fields(j) ==> !Unmentioned(j, [k])
  {
    assert [k] + [] == [k] && [k][1..] == [];
    OneStepDown(j, k, []);
  }

  lemma NothingBelowNull(path: seq<string>)
    requires path != []
    ensures At(JNull, path) == None
  {
  }

  lemma UnmentionedBelow(patch: Json, k: string, path: seq<string>)
    requires k in Fields(patch)
    ensures Unmentioned(patch, [k] + path) <==> Unmentioned(Fields(patch)[k], path)
  {
    assert ([k] + path)[1..] == path;
  }

  lemma MergedOneDown(result: Json, target: Json, patch: Json, k: string, path: seq<string>)
    requires k in Fields(patch) && k in Fields(result) && path != []
    requires MergedAt(result, target, patch, [k] + path)
    ensures MergedAt(Fields(result)[k], if k in Fields(target) then Fields(target)[k] else JNull, Fields(patch)[k],
                     path)
  {
    OneStepDown(result, k, path);
    OneStepDown(target, k, path);
    OneStepDown(patch, k, path);
    UnmentionedBelow(patch, k, path);
    NothingBelowNull(path);
  }

  lemma MergedBelow(result: Json, target: Json, patch: Json, k: string)
    requires IsMerge(result, target, patch) && k in Fields(patch) && Fields(patch)[k].JObject?
    ensures k in Fields(result)
    ensures IsMerge(Fields(result)[k], if k in Fields(target) then Fields(target)[k] else JNull, Fields(patch)[k])
  {
    OneMember(result, k);
    OneMember(patch, k);
    assert MergedAt(result, target, patch, [k]);
    var below := if k in Fields(target) then Fields(target)[k] else JNull;
    forall path | path != [] ensures MergedAt(Fields(result)[k], below, Fields(patch)[k], path) {
      MergedOneDown(result, target, patch, k, path);
    }
  }

  /** Under a member whose given value is not an object two merges agree. */
  lemma SameMember(a: Json, b: Json, target: Json, patch: Json, k: string)
    requires patch.JObject? && IsMerge(a, target, patch) && IsMerge(b, target, patch)
    ensures k in a.fields <==> k in b.fields
    ensures k in a.fields && k in b.fields && !(k in patch.fields && patch.fields[k].JObject?) ==>
              a.fields[k] == b.fields[k]
  {
    OneMember(a, k);
    OneMember(b, k);
    OneMember(patch, k);
    assert MergedAt(a, target, patch, [k]) && MergedAt(b, target, patch, [k]);
  }

  lemma {:induction false} MergeIsUnique(a: Json, b: Json, target: Json, patch: Json)
    requires IsMerge(a, target, patch) && IsMerge(b, target, patch)
    ensures a == b
    decreases patch
  {
    if !patch.JObject? {
    } else {
      forall k
        ensures k in a.fields <==> k in b.fields
        ensures k in a.fields && k in b.fields ==> a.fields[k] == b.fields[k]
      {
        SameMember(a, b, target, patch, k);
        if k in patch.fields && patch.fields[k].JObject? {
          MergedBelow(a, target, patch, k);
          MergedBelow(b, target, patch, k);
          MergeIsUnique(a.fields[k], b.fields[k], if k in Fields(target) then Fields(target)[k] else JNull,
                        patch.fields[k]);
        }
      }
      assert a.fields == b.fields;
    }
  }

  /** Merging is settled by what it does at each path: the result is the one value that is right everywhere. */
  lemma MergePatchIsExact(result: Json, target: Json, patch: Json)
    ensures result == MergePatch(target, patch) <==> IsMerge(result, target, patch)
  {
    var merged := MergePatch(target, patch);
    if patch.JObject? {
      forall path | path != [] ensures MergedAt(merged, target, patch, path) {
        if Unmentioned(patch, path) {
          UnmentionedIsKept(target, patch, path);
        } else if At(patch, path).Some? {
          GivenIsWritten(target, patch, path);
        } else {
          BelowGivenIsGone(target, patch, path);
        }
      }
    }
    if IsMerge(result, target, patch) { MergeIsUnique(result, merged, target, patch); }
  }

  /** Merging the same patch again changes nothing, whatever the target and however deep the patch. */
  lemma {:induction false} MergePatchIdempotent(target: Json, patch: Json)
    ensures MergePatch(MergePatch(target, patch), patch) == MergePatch(target, patch)
    decreases patch
  {
    if !patch.JObject? {
    } else {
      var t, p := Fields(target), patch.fields;
      var once := MergePatch(target, patch).fields;
      var twice := MergePatch(MergePatch(target, patch), patch).fields;
      forall k | k in once ensures k in twice && twice[k] == once[k] {
        if k in p {
          MergePatchIdempotent(if k in t then t[k] else JNull, p[k]);
        }
      }
      assert once == twice;
    }
  }

  /** No member of the value, or of an object nested in it, is null. Arrays are not looked into. */
  predicate NullFree(j: Json)
    decreases j
  {
    j.JObject? ==> forall k :: k in j.fields ==> !j.fields[k].JNull? && NullFree(j.fields[k])
  }

  /** What merging an object into itself, or into nothing, does to it: it loses its null members. */
  lemma {:induction false} SelfMergeIff(j: Json)
    ensures MergePatch(j, j) == j <==> NullFree(j)
    decreases j
  {
    if !j.JObject? {
    } else {
      var r := MergePatch(j, j).fields;
      forall k | k in j.fields ensures MergePatch(j.fields[k], j.fields[k]) == j.fields[k] <==> NullFree(j.fields[k]) {
        SelfMergeIff(j.fields[k]);
      }
      if NullFree(j) {
        assert r == j.fields;
      } else {
        var k :| k in j.fields && (j.fields[k].JNull? || !NullFree(j.fields[k]));
        assert k !in r || r[k] != j.fields[k];
      }
    }
  }

  // ----- the store -----

  datatype Entry = Entry(key: string, value: Json, owner: string, updatedAt: int, version: int)

  type Store = map<string, Entry>

  datatype Op =
    | Set(key: string, value: Json, owner: string, now: int)
    | Del(key: string)
    | UpdatePartial(key: string, patch: Json, owner: string, now: int)
    | MergeInto(key: string, data: Json, owner: string, now: int)
    | Clear

  function Written(e: Entry, value: Json, owner: string, now: int): Entry {
    e.(value := value, owner := owner, updatedAt := now, version := e.version + 1)
  }

  predicate Succeeds(st: Store, op: Op) {
    match op
    case Set(_, _, _, _) => true
    case Del(key) => key in st
    case UpdatePartial(key, patch, _, _) => key in st && (patch.JObject? ==> st[key].value.JObject?)
    case MergeInto(_, _, _, _) => true
    case Clear => true
  }

  /** Objects are merged, arrays appended to arrays, and anything else replaced. */
  function Merged(value: Json, data: Json): Json {
    if data.JObject? && value.JObject? then MergePatch(value, data)
    else if data.JArray? && value.JArray? then JArray(value.items + data.items)
    else data
  }

  function Patched(value: Json, patch: Json): Json {
    if patch.JObject? && value.JObject? then MergePatch(value, patch) else patch
  }

  function Apply(st: Store, op: Op): Store {
    if !Succeeds(st, op) then st
    else match op
      case Set(key, value, owner, now) =>
        if key in st then st[key := Written(st[key], value, owner, now)]
        else st[key := Entry(key, value, owner, now, 1)]
      case Del(key) => st - {key}
      case UpdatePartial(key, patch, owner, now) =>
        st[key := Written(st[key], Patched(st[key].value, patch), owner, now)]
      case MergeInto(key, data, owner, now) =>
        if key in st then st[key := Written(st[key], Merged(st[key].value, data), owner, now)]
        else st[key := Entry(key, data, owner, now, 1)]
      case Clear => map[]
  }

  class ContextStore {
    var store: map<string, Entry>

    constructor ()
      ensures store == map[]
    {
      store := map[];
    }

    method SetValue(key: string, value: Json, owner: string, now: int) returns (ok: bool)
      modifies this
      ensures store == Apply(old(store), Set(key, value, owner, now)) && ok
    {
      if key in store {
        store := store[key := store[key].(value := value)];
        store := store[key := store[key].(owner := owner)];
        store := store[key := store[key].(updatedAt := now)];
        store := store[key := store[key].(version := store[key].version + 1)];
      } else {
        store := store[key := Entry(key, value, owner, now, 1)];
      }
      return true;
    }

    method Delete(key: string) returns (ok: bool)
      modifies this
      ensures store == Apply(old(store), Del(key)) && ok == Succeeds(old(store), Del(key))
    {
      if key !in store { return false; }
      store := store - {key};
      return true;
    }

    method Patch(key: string, patch: Json, owner: string, now: int) returns (ok: bool)
      modifies this
      ensures store == Apply(old(store), UpdatePartial(key, patch, owner, now))
      ensures ok == Succeeds(old(store), UpdatePartial(key, patch, owner, now))
    {
      if key !in store { return false; }
      var value := store[key].value;
      if patch.JObject? && !value.JObject? { return false; }
      if patch.JObject? && value.JObject? {
        value := MergePatch(value, patch);
      } else {
        value := patch;
      }
      store := store[key := store[key].(value := value, owner := owner, updatedAt := now,
                                        version := store[key].version + 1)];
      return true;
    }

    method Merge(key: string, data: Json, owner: string, now: int) returns (ok: bool)
      modifies this
      ensures store == Apply(old(store), MergeInto(key, data, owner, now)) && ok
    {
      if key !in store {
        store := store[key := Entry(key, data, owner, now, 1)];
      } else {
        var value := store[key].value;
        if data.JObject? && value.JObject? {
          value := MergePatch(value, data);
        } else if data.JArray? && value.JArray? {
          value := JArray(value.items + data.items);
        } else {
          value := data;
        }
        store := store[key := store[key].(value := value, owner := owner, updatedAt := now,
                                          version := store[key].version + 1)];
      }
      return true;
    }

    method RemoveAll()
      modifies this
      ensures store == Apply(old(store), Clear)
    {
      store := map[];
    }
  }

  // ----- what a write stores -----

  function ValueAt(st: Store, key: string): Option<Json> {
    if key in st then Some(st[key].value) else None
  }

  /** The value that stands under a key after a write, without a merge function: by paths, by items, or verbatim. */
  ghost predicate ValueFits(before: Option<Json>, op: Op, after: Json)
    requires op.Set? || op.UpdatePartial? || op.MergeInto?
  {
    match op
    case Set(_, value, _, _) => after == value
    case UpdatePartial(_, patch, _, _) => before.Some? && IsMerge(after, before.value, patch)
    case MergeInto(_, data, _, _) =>
      if before.Some? && before.value.JObject? && data.JObject? then IsMerge(after, before.value, data)
      else if before.Some? && before.value.JArray? && data.JArray? then
        after == JArray(before.value.items + data.items)
      else after == data
  }

  /** A write fails, changing nothing, exactly when update_partial names a missing key or gives an object for a value
      that is not one. Otherwise the key holds the right value with the writer and the time, and no other changes. */
  lemma WriteIsExact(st: Store, op: Op)
    requires op.Set? || op.UpdatePartial? || op.MergeInto?
    ensures !Succeeds(st, op) <==>
            op.UpdatePartial? && (op.key !in st || (op.patch.JObject? && !st[op.key].value.JObject?))
    ensures !Succeeds(st, op) ==> Apply(st, op) == st
    ensures Succeeds(st, op) ==>
              var st' := Apply(st, op);
              && op.key in st' && st' - {op.key} == st - {op.key}
              && st'[op.key].owner == op.owner && st'[op.key].updatedAt == op.now
              && st'[op.key].version == (if op.key in st then st[op.key].version else 0) + 1
              && ValueFits(ValueAt(st, op.key), op, st'[op.key].value)
  {
    if Succeeds(st, op) && op.key in st && !op.Set? {
      MergePatchIsExact(Apply(st, op)[op.key].value, st[op.key].value,
                        if op.UpdatePartial? then op.patch else op.data);
    }
  }

  // ----- writing twice -----

  /** On a stored object, an object given twice to merge or to update_partial leaves the same value as once. */
  lemma ObjectWritesAreIdempotent(st: Store, op: Op)
    requires op.UpdatePartial? || op.MergeInto?
    requires op.key in st && st[op.key].value.JObject?
    requires (if op.UpdatePartial? then op.patch else op.data).JObject?
    ensures Succeeds(st, op) && Succeeds(Apply(st, op), op)
    ensures ValueAt(Apply(Apply(st, op), op), op.key) == ValueAt(Apply(st, op), op.key)
  {
    MergePatchIdempotent(st[op.key].value, if op.UpdatePartial? then op.patch else op.data);
  }

  /** Merging into a missing key stores the data verbatim, nulls included; so there a second merge of the same
      data changes nothing if and only if the data has no null member to lose and no items to append. */
  lemma MergeFromMissingTwiceIff(st: Store, op: Op)
    requires op.MergeInto? && op.key !in st
    ensures ValueAt(Apply(st, op), op.key) == Some(op.data)
    ensures ValueAt(Apply(Apply(st, op), op), op.key) == Some(op.data) <==>
            (op.data.JArray? ==> op.data.items == []) && NullFree(op.data)
  {
    SelfMergeIff(op.data);
    if op.data.JArray? && op.data.items + op.data.items == op.data.items {
      assert |op.data.items + op.data.items| == |op.data.items|;
    }
  }

  /** Array data appends: the old items stay in front and the lengths add up. */
  lemma ArrayMergeAppends(st: Store, op: Op)
    requires op.MergeInto? && op.data.JArray? && op.key in st && st[op.key].value.JArray?
    ensures var v, v' := st[op.key].value, Apply(st, op)[op.key].value;
            && v'.JArray?
            && v.items <= v'.items && v'.items[|v.items|..] == op.data.items
            && |v'.items| == |v.items| + |op.data.items|
  {
  }

  // ----- versions -----

  ghost function Run(ops: seq<Op>): Store {
    if ops == [] then map[] else Apply(Run(ops[..|ops| - 1]), ops[|ops| - 1])
  }

  ghost predicate WritesTo(op: Op, key: string) {
    (op.Set? || op.UpdatePartial? || op.MergeInto?) && op.key == key
  }

  ghost predicate Removes(op: Op, key: string) {
    op.Clear? || (op.Del? && op.key == key)
  }

  /** How many operations wrote the key with success after it was last removed. */
  ghost function WritesSinceRemoval(ops: seq<Op>, key: string): nat {
    if ops == [] then 0
    else
      var front, op := ops[..|ops| - 1], ops[|ops| - 1];
      if Removes(op, key) then 0
      else WritesSinceRemoval(front, key) + if WritesTo(op, key) && Succeeds(Run(front), op) then 1 else 0
  }

  /** In every run a key's version is the number of successful writes since it was last created, and the key is
      there exactly when there was one. */
  lemma {:induction false} VersionCountsWrites(ops: seq<Op>, key: string)
    ensures key in Run(ops) <==> WritesSinceRemoval(ops, key) > 0
    ensures key in Run(ops) ==> Run(ops)[key].version == WritesSinceRemoval(ops, key) && Run(ops)[key].key == key
  {
    if ops == [] {
    } else {
      VersionCountsWrites(ops[..|ops| - 1], key);
    }
  }
}
