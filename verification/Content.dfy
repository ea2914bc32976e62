// The two-level map content_ of a partition, flattened to one map from directory and name.
module Content {
  import opened Volumes

  ghost function KeysOf<M>(content: map<string, map<string, M>>): (keys: set<Key>)
    ensures forall k :: k in keys <==> k.dir in content && k.name in content[k.dir]
  {
    set d, n | d in content && n in content[d] :: Key(d, n)
  }

  ghost function Flat<M>(content: map<string, map<string, M>>): map<Key, M> {
    map k | k in KeysOf(content) :: content[k.dir][k.name]
  }

  // content_[dir][name] = m, creating the directory if need be
  function Put<M>(content: map<string, map<string, M>>, dir: string, name: string, m: M): map<string, map<string, M>> {
    content[dir := (if dir in content then content[dir] else map[])[name := m]]
  }

  lemma FlatLookup<M>(content: map<string, map<string, M>>, dir: string, name: string)
    ensures Key(dir, name) in Flat(content) <==> dir in content && name in content[dir]
    ensures dir in content && name in content[dir] ==> Flat(content)[Key(dir, name)] == content[dir][name]
  {
  }

  lemma FlatPut<M>(content: map<string, map<string, M>>, dir: string, name: string, m: M)
    ensures Flat(Put(content, dir, name, m)) == Flat(content)[Key(dir, name) := m]
    ensures Put(content, dir, name, m).Keys == content.Keys + {dir}
  {
    hide KeysOf;
    var put := Put(content, dir, name, m);
    forall k
      ensures k in KeysOf(put) <==> k == Key(dir, name) || k in KeysOf(content)
    {
      assert k.dir != dir ==> (k.dir in put <==> k.dir in content);
    }
    assert Flat(put) == Flat(content)[Key(dir, name) := m];
  }

  lemma FlatErase<M>(content: map<string, map<string, M>>, dir: string, name: string)
    requires dir in content
    ensures Flat(content[dir := content[dir] - {name}]) == Flat(content) - {Key(dir, name)}
    ensures content[dir := content[dir] - {name}].Keys == content.Keys
  {
    hide KeysOf;
    var rest := content[dir := content[dir] - {name}];
    forall k
      ensures k in KeysOf(rest) <==> k != Key(dir, name) && k in KeysOf(content)
    {
    }
    assert Flat(rest) == Flat(content) - {Key(dir, name)};
  }

  lemma FlatEraseDirectory<M>(content: map<string, map<string, M>>, dir: string)
    ensures Flat(content - {dir}) == Flat(content) - (set k | k in Flat(content) && k.dir == dir)
  {
  }

  lemma FlatOfNothing<M>()
    ensures Flat<M>(map[]) == map[]
  {
  }

  lemma FlatAddDirectory<M>(content: map<string, map<string, M>>, dir: string)
    requires dir !in content
    ensures Flat(content[dir := map[]]) == Flat(content)
  {
  }

  // ------------------------------------------------------------------ counting

  lemma {:induction false} SameSize(names: set<string>, dir: string)
    ensures |set n | n in names :: Key(dir, n)| == |names|
  {
    if names != {} {
      var n :| n in names;
      SameSize(names - {n}, dir);
      assert (set i | i in names :: Key(dir, i)) == {Key(dir, n)} + (set i | i in names - {n} :: Key(dir, i));
    }
  }

  lemma FlatCardinality<M>(content: map<string, map<string, M>>)
    ensures |Flat(content)| == |KeysOf(content)|
  {
    hide KeysOf;
    assert Flat(content).Keys == KeysOf(content);
  }

  lemma KeysInside<M>(content: map<string, map<string, M>>, dir: string)
    requires dir in content
    ensures |set k | k in KeysOf(content) && k.dir == dir| == |content[dir]|
  {
    hide KeysOf;
    var names := content[dir].Keys;
    SameSize(names, dir);
    assert (set k | k in KeysOf(content) && k.dir == dir) == set n | n in names :: Key(dir, n);
  }

  lemma FlatSize<M>(content: map<string, map<string, M>>, dir: string)
    requires dir in content
    ensures |Flat(content)| == |Flat(content - {dir})| + |content[dir]|
  {
    hide KeysOf, Flat;
    FlatCardinality(content);
    FlatCardinality(content - {dir});
    KeysInside(content, dir);
    var inside := set k | k in KeysOf(content) && k.dir == dir;
    assert KeysOf(content) == KeysOf(content - {dir}) + inside;
    assert KeysOf(content - {dir}) !! inside;
  }
}
