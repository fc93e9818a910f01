/** Notions shared by several parts of the kernel. */
module Common {

  datatype Option<T> = None | Some(value: T)

  ghost function Once(b: bool): nat
  {
    if b then 1 else 0
  }

  /** Whether `p` is one of the `n` numbers from `first` on. */
  ghost predicate Within(p: nat, first: nat, n: nat)
  {
    first <= p < first + n
  }

  // ----- 32-bit unsigned numbers

  const TWO32: nat := 0x1_0000_0000

  function Wrap32(n: nat): (w: nat)
    ensures w < TWO32
  {
    n % 0x1_0000_0000
  }

  /** Addition of 32-bit unsigned numbers. */
  function Add32(x: nat, y: nat): nat
  {
    Wrap32(x + y)
  }

  lemma WrapSmall(n: nat)
    requires n < TWO32
    ensures Wrap32(n) == n
  {
  }

  lemma WrapAdd(x: nat, y: nat)
    ensures Wrap32(Wrap32(x) + y) == Wrap32(x + y) && Wrap32(Wrap32(x) + Wrap32(y)) == Wrap32(x + y)
  {
  }

  // ----- 64-bit unsigned numbers

  const TWO64: nat := 0x1_0000_0000_0000_0000

  function Wrap64(n: nat): (w: nat)
    ensures w < TWO64
  {
    n % 0x1_0000_0000_0000_0000
  }
}
