/** `SimpleIdWrapper`: an object identity holding a boxed (possibly null) id,
    with `equals` and `hashCode` delegated to that id. */
module Ids {
  import opened Wrappers
  import opened JavaText

  /** A wrapper instance: its heap identity and the id it wraps. */
  datatype Wrapper = Wrapper(address: nat, id: Option<Long>)

  /** The argument of `equals`: null, a wrapper, or an object of another class. */
  datatype Other = NullRef | WrapperRef(w: Wrapper) | OtherClass(address: nat)

  /** `Long.hashCode()`: the low 32 bits of `v ^ (v >>> 32)`, read as a signed int. */
  function LongHash(v: Long): Int32 {
    var u := if v < 0 then v as int + 0x1_0000_0000_0000_0000 else v as int;
    var x := ((u % 0x1_0000_0000) as bv32 ^ (u / 0x1_0000_0000) as bv32) as int;
    if x >= 0x8000_0000 then x - 0x1_0000_0000 else x
  }

  /** `equals`: true for the same instance, false for null or another class,
      a NullPointerException when the wrapped id is null, otherwise `Long.equals`. */
  function Equals(self: Wrapper, o: Other): (r: Result<bool>)
    ensures o == WrapperRef(self) ==> r == Ok(true)
    ensures (o.NullRef? || o.OtherClass?) ==> r == Ok(false)
    ensures o.WrapperRef? && o.w.address != self.address ==>
              (r.Err? <==> self.id.None?) &&
              (r.Ok? ==> (r.value <==> o.w.id == self.id))
  {
    match o
    case NullRef => Ok(false)
    case OtherClass(_) => Ok(false)
    case WrapperRef(w) =>
      if w.address == self.address then Ok(true)
      else if self.id.None? then Err(NullPointer)
      else Ok(w.id == self.id)
  }

  /** `hashCode`: the id's hash, a NullPointerException for a null id. */
  function HashCode(self: Wrapper): (r: Result<Int32>)
    ensures r.Err? <==> self.id.None?
    ensures self.id.Some? ==> r == Ok(LongHash(self.id.value))
  {
    if self.id.None? then Err(NullPointer) else Ok(LongHash(self.id.value))
  }

  /** Equal wrappers have equal hash codes, whenever both are defined. */
  lemma EqualWrappersHashAlike(a: Wrapper, b: Wrapper)
    requires Equals(a, WrapperRef(b)) == Ok(true)
    requires a.address != b.address || a == b
    ensures HashCode(a).Ok? ==> HashCode(a) == HashCode(b)
  {
  }

  /** Two distinct wrappers with non-null ids are equal exactly when their ids
      are, in either order; so a hash map keyed by such wrappers behaves as a
      map keyed by the ids. */
  lemma WrapperEqualityIsIdEquality(a: Wrapper, b: Wrapper)
    requires a.address != b.address
    requires a.id.Some? && b.id.Some?
    ensures Equals(a, WrapperRef(b)) == Ok(a.id == b.id)
    ensures Equals(a, WrapperRef(b)) == Equals(b, WrapperRef(a))
    ensures a.id == b.id ==> HashCode(a) == HashCode(b)
  {
  }
}
