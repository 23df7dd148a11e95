/** include/casacore_mini/lattice_array.hpp: flat Fortran-order storage reached through strides. */
module LatticeArray {
  import opened Wrappers
  import opened LatticeShape

  /** The contents of an array. */
  datatype Lattice<T> = Lattice(shape: IPosition, flat: seq<T>)

  predicate ValidLattice<T>(a: Lattice<T>) {
    NonNegative(a.shape) && |a.flat| == Product(a.shape)
  }

  function Filled<T>(shape: IPosition, v: T): (a: Lattice<T>)
    requires NonNegative(shape)
    ensures ValidLattice(a)
  {
    ProductNonNegative(shape);
    Lattice(shape, seq(Product(shape), _ => v))
  }

  class LatticeArray<T> {
    const shape: IPosition
    const storage: array<T>

    ghost predicate Valid()
    {
      NonNegative(shape) && storage.Length == Product(shape)
    }

    constructor (shape: IPosition, v: T)
      requires NonNegative(shape)
      ensures Valid() && fresh(storage) && this.shape == shape
      ensures storage[..] == Filled(shape, v).flat
    {
      ProductNonNegative(shape);
      var n := ProductOf(shape);
      this.shape := shape;
      storage := new T[n](_ => v);
    }

    /** Fails when the index is not inside the shape. */
    method Put(index: IPosition, v: T) returns (ok: bool)
      requires Valid()
      modifies storage
      ensures ok <==> ValidIndex(index, shape)
      ensures ok ==> 0 <= Offset(index, Strides(shape)) < storage.Length
                     && storage[..] == old(storage[..])[Offset(index, Strides(shape)) := v]
      ensures !ok ==> storage[..] == old(storage[..])
    {
      var r := ValidateIndex(index, shape);
      if r.Err? {
        return false;
      }
      ValidIndexPositive(index, shape);
      LinearThenDelinearize(index, shape);
      var strides := FortranStrides(shape);
      var offset := LinearIndex(index, strides);
      storage[offset] := v;
      return true;
    }

    /** Fails when the index is not inside the shape. */
    method At(index: IPosition) returns (v: Option<T>)
      requires Valid()
      ensures v.Some? <==> ValidIndex(index, shape)
      ensures v.Some? ==> 0 <= Offset(index, Strides(shape)) < storage.Length
                          && v.value == storage[Offset(index, Strides(shape))]
    {
      var r := ValidateIndex(index, shape);
      if r.Err? {
        return None;
      }
      ValidIndexPositive(index, shape);
      LinearThenDelinearize(index, shape);
      var strides := FortranStrides(shape);
      var offset := LinearIndex(index, strides);
      return Some(storage[offset]);
    }

    /** Element i of the flat storage, written through the index it stands for. */
    method PutFlat(i: nat, v: T)
      requires Valid() && i < storage.Length
      modifies storage
      ensures storage[..] == old(storage[..])[i := v]
    {
      ProductNonNegative(shape);
      DelinearizeThenLinear(i, shape);
      var pos := Delinearize(i, shape);
      var ok := Put(pos, v);
    }

    method Contents() returns (a: Lattice<T>)
      requires Valid()
      ensures a == Lattice(shape, storage[..]) && ValidLattice(a)
    {
      a := Lattice(shape, storage[..]);
    }
  }
}
