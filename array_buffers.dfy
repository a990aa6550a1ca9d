/** `ArrayBuffers` of `libtiledbsoma/src/soma/array_buffers.cc`: the result
    columns of one read, a name-to-buffer map paired with the list of names in
    insertion order. The buffer type is a parameter: the column buffers
    themselves are not part of this model. */
module Buffers {
  import opened Base

  class ArrayBuffers<B> {
    var names: seq<string>
    var buffers: map<string, B>

    /** The object invariant: `names` has no duplicates and lists exactly the
        keys of `buffers`. */
    ghost predicate Valid()
      reads this
    {
      && (forall i, j :: 0 <= i < j < |names| ==> names[i] != names[j])
      && (forall n :: n in buffers <==> n in names)
    }

    constructor ()
      ensures Valid()
      ensures names == [] && buffers == map[]
    {
      names := [];
      buffers := map[];
    }

    /** Whether a column of that name is held. */
    predicate Contains(name: string)
      reads this
    {
      name in buffers
    }

    /** `at`: the buffer stored under `name`, or an error when there is none. */
    function At(name: string): (r: Result<B>)
      reads this
      ensures r.Err? <==> name !in buffers
      ensures r.Err? ==> r.error == NoSuchColumn(name)
      ensures r.Ok? ==> r.value == buffers[name]
    {
      if !Contains(name) then Err(NoSuchColumn(name)) else Ok(buffers[name])
    }

    /** `emplace`: add a column under a new name, at the end of the name list;
        a name already present is an error and changes nothing. */
    method Emplace(name: string, buffer: B) returns (o: Outcome)
      requires Valid()
      modifies this
      ensures Valid()
      ensures old(Contains(name)) ==> o == Fail(DuplicateColumn(name)) && names == old(names) && buffers == old(buffers)
      ensures !old(Contains(name)) ==> o == Pass && names == old(names) + [name] && buffers == old(buffers)[name := buffer]
      ensures Contains(name)
      ensures forall n :: n in old(buffers) ==> n in buffers && buffers[n] == old(buffers)[n]
      ensures |names| >= |old(names)| && names[..|old(names)|] == old(names)
    {
      if Contains(name) {
        return Fail(DuplicateColumn(name));
      }
      names := names + [name];
      buffers := buffers[name := buffer];
      o := Pass;
    }
  }

  /** Columns read back through `At` after two `Emplace` calls are the buffers
      given, and the names are in insertion order. */
  method EmplaceTwice<B>(x: B, y: B) returns (bufs: ArrayBuffers<B>)
    ensures fresh(bufs) && bufs.Valid()
    ensures bufs.names == ["d0", "a0"]
    ensures bufs.At("d0") == Ok(x) && bufs.At("a0") == Ok(y)
  {
    bufs := new ArrayBuffers();
    var o1 := bufs.Emplace("d0", x);
    var o2 := bufs.Emplace("a0", y);
    var o3 := bufs.Emplace("d0", y);
    assert o1 == Pass && o2 == Pass && o3.Fail?;
  }
}
