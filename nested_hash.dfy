/** The analytics payload: a Ruby hash from symbols to values, where a value
    may itself be such a hash. Paths are read with Get, and the write that
    `TravisYmlStats#set` performs is specified by AssignIn. */
module NestedHash {
  import opened RubyValues

  /** A Ruby symbol, by its name. */
  type Key = string

  datatype Entry = Leaf(value: Value) | Node(children: map<Key, Entry>)

  type Hsh = map<Key, Entry>

  /** The entry reached from `e` by following `path`, if any. */
  function At(e: Entry, path: seq<Key>): Option<Entry>
    decreases |path|
  {
    if path == [] then Some(e)
    else match e
      case Leaf(_) => None
      case Node(c) => if path[0] in c then At(c[path[0]], path[1..]) else None
  }

  /** Reading a payload along a path of keys; the empty path reads the payload itself. */
  function Get(h: Hsh, path: seq<Key>): Option<Entry> {
    At(Node(h), path)
  }

  predicate NodeAt(h: Hsh, p: seq<Key>) {
    Get(h, p).Some? && Get(h, p).value.Node?
  }

  /** The nested hash found at `p`. */
  function Sub(h: Hsh, p: seq<Key>): Hsh
    requires NodeAt(h, p)
  {
    Get(h, p).value.children
  }

  predicate IsPrefix(a: seq<Key>, b: seq<Key>) {
    |a| <= |b| && a == b[..|a|]
  }

  /** A truthy non-hash value sits at `p`: `set` cannot walk through it. */
  predicate BlockedAt(h: Hsh, p: seq<Key>) {
    Get(h, p).Some? && Get(h, p).value.Leaf? && Truthy(Get(h, p).value.value)
  }

  /** Reading along a non-empty path starts at the entry under its first key. */
  lemma GetCons(h: Hsh, p: seq<Key>)
    requires p != []
    ensures Get(h, p) == if p[0] in h then At(h[p[0]], p[1..]) else None
  {
  }

  lemma GetSingle(h: Hsh, k: Key)
    ensures Get(h, [k]) == if k in h then Some(h[k]) else None
  {
    GetCons(h, [k]);
    assert [k][1..] == [];
  }

  /** A hash at a non-empty path lies inside a hash at the path's first key. */
  lemma NodeAtStep(h: Hsh, p: seq<Key>)
    requires NodeAt(h, p) && p != []
    ensures p[0] in h && h[p[0]].Node?
    ensures Get(h, p) == Get(h[p[0]].children, p[1..])
  {
    GetCons(h, p);
  }

  /** One step of `set`'s walk, `hsh[key] ||= {}; hsh = hsh[key]`: an existing
      hash is reused, a missing, nil or false entry gives a new empty hash,
      and any other value cannot be walked into. */
  function Descend(h: Hsh, k: Key): (r: Option<Hsh>)
    ensures r.None? <==> BlockedAt(h, [k])
    ensures r.Some? && k in h && h[k].Node? ==> r.value == h[k].children
  {
    GetSingle(h, k);
    if k !in h then Some(map[])
    else match h[k]
      case Node(c) => Some(c)
      case Leaf(x) => if Truthy(x) then None else Some(map[])
  }

  /** `set(path, value)` as a function of the payload: the new payload, or
      None where Ruby raises (an empty path, or a truthy non-hash value on the
      way). */
  function AssignIn(h: Hsh, path: seq<Key>, v: Value): Option<Hsh>
    decreases |path|
  {
    if |path| == 0 then None
    else if |path| == 1 then Some(h[path[0] := Leaf(v)])
    else
      var sub := Descend(h, path[0]);
      if sub.None? then None
      else
        var r := AssignIn(sub.value, path[1..], v);
        if r.None? then None else Some(h[path[0] := Node(r.value)])
  }

  /** Stores `x` under key `k` of the nested hash at `p`, rebuilding the hashes above it. */
  function PutAt(h: Hsh, p: seq<Key>, k: Key, x: Entry): Hsh
    requires NodeAt(h, p)
    decreases |p|
  {
    if p == [] then h[k := x]
    else
      NodeAtStep(h, p);
      h[p[0] := Node(PutAt(h[p[0]].children, p[1..], k, x))]
  }

  // ----- lemmas that connect the step-by-step walk of `set` with AssignIn -----

  lemma {:induction false} GetSnoc(h: Hsh, p: seq<Key>, k: Key)
    requires NodeAt(h, p)
    ensures Get(h, p + [k]) == if k in Sub(h, p) then Some(Sub(h, p)[k]) else None
    decreases |p|
  {
    if p != [] {
      assert (p + [k])[0] == p[0] && (p + [k])[1..] == p[1..] + [k];
      NodeAtStep(h, p);
      GetCons(h, p + [k]);
      GetSnoc(h[p[0]].children, p[1..], k);
    } else {
      assert p + [k] == [k];
      GetSingle(h, k);
    }
  }

  lemma {:induction false} PutAtGet(h: Hsh, p: seq<Key>, k: Key, x: Entry)
    requires NodeAt(h, p)
    ensures Get(PutAt(h, p, k, x), p + [k]) == Some(x)
    decreases |p|
  {
    if p != [] {
      assert (p + [k])[0] == p[0] && (p + [k])[1..] == p[1..] + [k];
      NodeAtStep(h, p);
      GetCons(PutAt(h, p, k, x), p + [k]);
      PutAtGet(h[p[0]].children, p[1..], k, x);
    } else {
      assert p + [k] == [k];
      GetSingle(PutAt(h, p, k, x), k);
    }
  }

  /** Following `k` and then `q` reads what Descend(h, k) reads along `q`. */
  lemma DescendGet(h: Hsh, k: Key, q: seq<Key>)
    requires Descend(h, k).Some? && q != []
    ensures Get(h, [k] + q) == Get(Descend(h, k).value, q)
  {
    assert ([k] + q)[0] == k && ([k] + q)[1..] == q;
    GetCons(h, [k] + q);
    GetCons(map[], q);
  }

  /** Creating the missing hash at step `i` of the walk leaves the final result unchanged. */
  lemma {:induction false} VivifyKeepsAssign(h: Hsh, path: seq<Key>, i: nat, v: Value)
    requires i < |path| - 1
    requires NodeAt(h, path[..i]) && Descend(Sub(h, path[..i]), path[i]) == Some(map[])
    ensures AssignIn(PutAt(h, path[..i], path[i], Node(map[])), path, v) == AssignIn(h, path, v)
    decreases i
  {
    if i > 0 {
      NodeAtStep(h, path[..i]);
      var c := h[path[0]].children;
      assert path[..i][1..] == path[1..][..i - 1];
      VivifyKeepsAssign(c, path[1..], i - 1, v);
      var c' := PutAt(c, path[1..][..i - 1], path[i], Node(map[]));
      var h' := h[path[0] := Node(c')];
      assert PutAt(h, path[..i], path[i], Node(map[])) == h';
      assert Descend(h', path[0]) == Some(c');
      assert Descend(h, path[0]) == Some(c);
      var r := AssignIn(c, path[1..], v);
      if r.Some? {
        assert h'[path[0] := Node(r.value)] == h[path[0] := Node(r.value)];
      }
    } else {
      assert path[..i] == [];
      var h' := h[path[0] := Node(map[])];
      assert PutAt(h, path[..i], path[i], Node(map[])) == h';
      assert Descend(h', path[0]) == Some(map[]);
      var r := AssignIn(map[], path[1..], v);
      if r.Some? {
        assert h'[path[0] := Node(r.value)] == h[path[0] := Node(r.value)];
      }
    }
  }

  /** Once the walk has reached a hash at the parent of the last key, the result is one store. */
  lemma {:induction false} AssignAtNode(h: Hsh, path: seq<Key>, v: Value)
    requires |path| > 0 && NodeAt(h, path[..|path| - 1])
    ensures AssignIn(h, path, v) == Some(PutAt(h, path[..|path| - 1], path[|path| - 1], Leaf(v)))
    decreases |path|
  {
    if |path| > 1 {
      var n := |path| - 1;
      assert path[..n][1..] == path[1..][..n - 1];
      NodeAtStep(h, path[..n]);
      AssignAtNode(h[path[0]].children, path[1..], v);
    }
  }

  /** A step of the walk that meets a truthy non-hash value makes the whole `set` fail. */
  lemma {:induction false} AssignBlocked(h: Hsh, path: seq<Key>, i: nat, v: Value)
    requires i < |path| - 1
    requires NodeAt(h, path[..i]) && Descend(Sub(h, path[..i]), path[i]).None?
    ensures AssignIn(h, path, v).None?
    decreases i
  {
    if i > 0 {
      assert path[..i][1..] == path[1..][..i - 1];
      NodeAtStep(h, path[..i]);
      AssignBlocked(h[path[0]].children, path[1..], i - 1, v);
    }
  }

  // ----- what `set` promises, stated on AssignIn -----

  /** After `set(path, value)`, reading along `path` yields `value`. */
  lemma {:induction false} AssignThenGet(h: Hsh, path: seq<Key>, v: Value)
    requires AssignIn(h, path, v).Some?
    ensures Get(AssignIn(h, path, v).value, path) == Some(Leaf(v))
    decreases |path|
  {
    GetCons(AssignIn(h, path, v).value, path);
    if |path| > 1 {
      AssignThenGet(Descend(h, path[0]).value, path[1..], v);
    }
  }

  /** Every hash on the way to the written key exists afterwards. */
  lemma {:induction false} AssignMakesNodes(h: Hsh, path: seq<Key>, v: Value, j: nat)
    requires AssignIn(h, path, v).Some? && j < |path|
    ensures NodeAt(AssignIn(h, path, v).value, path[..j])
    decreases |path|
  {
    if j > 0 {
      assert path[..j] == [path[0]] + path[1..][..j - 1];
      AssignMakesNodes(Descend(h, path[0]).value, path[1..], v, j - 1);
    }
  }

  /** Every entry that is neither on the path nor below its end is untouched;
      in particular the other keys of an existing intermediate hash survive,
      since `||=` reuses that hash. */
  lemma {:induction false} AssignFrame(h: Hsh, path: seq<Key>, v: Value, q: seq<Key>)
    requires AssignIn(h, path, v).Some?
    requires !IsPrefix(q, path) && !IsPrefix(path, q)
    ensures Get(AssignIn(h, path, v).value, q) == Get(h, q)
    decreases |path|
  {
    assert q != [];
    assert q == [q[0]] + q[1..];
    if |path| > 1 && q[0] == path[0] {
      var c := Descend(h, path[0]).value;
      var c' := AssignIn(c, path[1..], v).value;
      assert path == [path[0]] + path[1..];
      assert |q| > 1;
      AssignFrame(c, path[1..], v, q[1..]);
      DescendGet(h, path[0], q[1..]);
    } else if |path| == 1 {
      assert q[0] != path[0];
    }
  }

  /** `set` succeeds exactly when the path is non-empty and no truthy
      non-hash value lies strictly above its end. */
  lemma {:induction false} AssignDefined(h: Hsh, path: seq<Key>, v: Value)
    ensures AssignIn(h, path, v).Some? <==>
      (|path| > 0 && forall j :: 0 < j < |path| ==> !BlockedAt(h, path[..j]))
    decreases |path|
  {
    if |path| > 1 {
      var k := path[0];
      assert path[..1] == [k];
      var sub := Descend(h, k);
      if sub.Some? {
        AssignDefined(sub.value, path[1..], v);
        forall j | 1 < j < |path|
          ensures BlockedAt(h, path[..j]) == BlockedAt(sub.value, path[1..][..j - 1])
        {
          assert path[..j] == [k] + path[1..][..j - 1];
          DescendGet(h, k, path[1..][..j - 1]);
        }
        if AssignIn(h, path, v).Some? {
          forall j | 0 < j < |path| ensures !BlockedAt(h, path[..j]) {
            if j > 1 {
              assert !BlockedAt(sub.value, path[1..][..j - 1]);
            }
          }
        } else {
          var j' :| 0 < j' < |path| - 1 && BlockedAt(sub.value, path[1..][..j']);
          assert BlockedAt(h, path[..j' + 1]);
        }
      }
    }
  }
}
