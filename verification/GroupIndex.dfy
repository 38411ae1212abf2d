/** The group manager's list and hash map, and the service manager's use of them. */
module GroupIndex {

  import opened Options
  import opened Int32
  import opened GroupIndexSpec

  method GenerateHashCode(key: string) returns (code: int)
    ensures code == HashCode(key)
  {
    code := 0;
    for i := 0 to |key|
      invariant code == HashCode(key[..i])
    {
      assert key[..i + 1][..i] == key[..i];
      WrapsOnce(Distance(key[..i]), CharValue(key[i]) - 'A' as int);
      code := Wrap32(code + (CharValue(key[i]) - 'A' as int));
    }
    assert key[..|key|] == key;
  }

  method BucketOf(key: string) returns (b: nat)
    ensures b == Bucket(key)
  {
    var code := GenerateHashCode(key);
    code := if code < 0 then -code else code;
    b := code % BUCKETS;
  }

  /** Walks a chain for a name. */
  method GetHashNodeByKey(chain: seq<Node>, name: string) returns (r: Option<Node>)
    ensures r == Find(chain, name)
  {
    var i := 0;
    assert chain[0..] == chain;
    while i < |chain|
      invariant 0 <= i <= |chain| && Find(chain, name) == Find(chain[i..], name)
    {
      if chain[i].name == name {
        return Some(chain[i]);
      }
      assert chain[i..][1..] == chain[i + 1..];
      i := i + 1;
    }
    return None;
  }

  /** Unlinks the first node of that name. */
  method Unlink(chain: seq<Node>, name: string) returns (r: seq<Node>)
    ensures r == Without(chain, name)
  {
    var i := 0;
    assert chain[0..] == chain;
    while i < |chain|
      invariant 0 <= i <= |chain| && Without(chain, name) == chain[..i] + Without(chain[i..], name)
    {
      assert chain[i..][1..] == chain[i + 1..];
      if chain[i].name == name {
        return chain[..i] + chain[i + 1..];
      }
      assert chain[..i] + ([chain[i]] + Without(chain[i + 1..], name)) == chain[..i + 1] + Without(chain[i + 1..], name);
      i := i + 1;
    }
    return chain;
  }

  class Workspace {
    var list: seq<Node>
    const buckets: array<seq<Node>>
    var services: set<nat>
    var serviceCount: int
    var next: nat
    ghost var stranded: nat

    ghost predicate Valid()
    {
      buckets.Length == BUCKETS
    }

    ghost function View(): State
      reads this, buckets
    {
      State(list, buckets[..], services, serviceCount, next, stranded)
    }

    constructor ()
      ensures Valid() && View() == Init() && fresh(buckets)
    {
      buckets := new seq<Node>[BUCKETS](_ => []);
      list, services, serviceCount, next, stranded := [], {}, 0, 0, 0;
      new;
      assert buckets[..] == seq(BUCKETS, _ => []);
    }

    method HashMapGet(name: string) returns (r: Option<Node>)
      requires Valid()
      ensures r == Get(View(), name)
    {
      var b := BucketOf(name);
      r := GetHashNodeByKey(buckets[b], name);
    }

    /** A name already in its bucket is refused. */
    method HashMapAdd(n: Node) returns (r: int)
      requires Valid()
      modifies buckets
      ensures r == if old(Get(View(), n.name)).None? then 0 else -1
      ensures buckets[..] == if r == 0 then old(buckets[..])[Bucket(n.name) := [n] + old(buckets[Bucket(n.name)])]
                             else old(buckets[..])
    {
      var b := BucketOf(n.name);
      var found := GetHashNodeByKey(buckets[b], n.name);
      if found.Some? {
        return -1;
      }
      buckets[b] := [n] + buckets[b];
      return 0;
    }

    method HashMapRemove(name: string)
      requires Valid()
      modifies buckets
      ensures buckets[..] == old(buckets[..])[Bucket(name) := Without(old(buckets[Bucket(name)]), name)]
    {
      var b := BucketOf(name);
      var chain := Unlink(buckets[b], name);
      buckets[b] := chain;
    }

    method AddGroupNode(name: string, nodeOk: bool) returns (r: Option<Node>)
      requires Valid()
      modifies this`list, this`next, buckets
      ensures View() == AddNodeStep(old(View()), name, nodeOk) && r == Get(View(), name)
    {
      r := HashMapGet(name);
      if r.Some? {
        return;
      }
      if !nodeOk {
        return None;
      }
      var n := Node(name, next);
      next := next + 1;
      list := [n] + list;
      var added := HashMapAdd(n);
      return Some(n);
    }

    method DelGroupNode(name: string)
      requires Valid()
      modifies this`list, this`services, this`stranded, buckets
      ensures View() == DelNodeStep(old(View()), name)
    {
      HashMapRemove(name);
      var found := GetHashNodeByKey(list, name);
      list := Unlink(list, name);
      if found.Some? {
        stranded := stranded + if found.value.address in services then 1 else 0;
        services := services - {found.value.address};
      }
    }

    method ReleaseService(name: string)
      requires Valid()
      modifies this`services, this`serviceCount
      ensures View() == ReleaseStep(old(View()), name)
    {
      var node := HashMapGet(name);
      if node.Some? && node.value.address in services {
        serviceCount := serviceCount - 1;
        services := services - {node.value.address};
      }
    }

    method AddService(name: string, inGroup: bool, nodeOk: bool, serviceOk: bool) returns (ok: bool)
      requires Valid()
      modifies this`list, this`next, this`services, this`serviceCount, buckets
      ensures View() == AddServiceStep(old(View()), name, inGroup, nodeOk, serviceOk)
      ensures ok ==> HasService(View(), name)
    {
      var known := HashMapGet(name);
      if known.None? && !inGroup {
        return false;
      }
      var node := AddGroupNode(name, nodeOk);
      if node.None? {
        return false;
      }
      if node.value.address in services {
        ReleaseService(name);
      }
      if !serviceOk {
        return false;
      }
      services := services + {node.value.address};
      serviceCount := serviceCount + 1;
      return true;
    }
  }
}
