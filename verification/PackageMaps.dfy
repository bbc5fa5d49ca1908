/** The string-keyed `Map` of the source: entries keep the order in which their keys first came. */
module PackageMaps {
  import opened Digraphs

  datatype PackageMap = PackageMap(order: seq<string>, at: Graph) {

    /** Each key once, and every package under its own short name. */
    ghost predicate Valid() {
      && (forall k :: k in order <==> k in at)
      && Distinct(order)
      && Keyed(at)
    }

    /** `set(pkg.short, pkg)`: a repeated key keeps its place and takes the new value. */
    function With(pkg: Package): (m: PackageMap)
      requires Valid()
      ensures m.Valid() && m.at == at[pkg.short := pkg]
    {
      PackageMap(if pkg.short in at then order else order + [pkg.short], at[pkg.short := pkg])
    }

    /** `delete(key)`. */
    function Without(key: string): (m: PackageMap)
      requires Valid()
      ensures m.Valid() && m.at == at - {key}
    {
      DropKeeps(order, key);
      PackageMap(Drop(order, key), at - {key})
    }

    /** `values()`, in entry order. */
    function Values(): (values: seq<Package>)
      requires Valid()
      ensures |values| == |order| && forall i :: 0 <= i < |order| ==> values[i] == at[order[i]]
      ensures forall p :: p in values <==> p.short in at && at[p.short] == p
    {
      var values := seq(|order|, i requires 0 <= i < |order| => at[order[i]]);
      assert forall k :: k in at ==> exists i :: 0 <= i < |order| && order[i] == k && values[i] == at[k];
      values
    }
  }

  function Drop(s: seq<string>, key: string): seq<string> {
    if s == [] then [] else (if s[0] == key then [] else [s[0]]) + Drop(s[1..], key)
  }

  ghost predicate Distinct(s: seq<string>) {
    forall i, j :: 0 <= i < j < |s| ==> s[i] != s[j]
  }

  lemma DropKeeps(s: seq<string>, key: string)
    ensures forall k :: k in Drop(s, key) <==> k in s && k != key
    ensures Distinct(s) ==> Distinct(Drop(s, key))
  {
    if s != [] {
      DropKeeps(s[1..], key);
      assert s == [s[0]] + s[1..];
      if Distinct(s) {
        assert Distinct(s[1..]) && s[0] !in s[1..];
      }
    }
  }
}
