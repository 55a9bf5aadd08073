// Field elements and the Poseidon hash, as a free term algebra: two hashes are equal
// only when their arities and arguments are, so collision freedom holds by construction.

module Field {

  datatype Fr =
    | Num(n: int)
    | Hash1(x: Fr)
    | Hash2(l: Fr, r: Fr)
    | Hash3(a: Fr, b: Fr, c: Fr)
    | HashN(args: seq<Fr>)

  const ZERO := Num(0)
  const HASH0 := Hash1(ZERO)

  // The two node hashes of the sparse Merkle tree: arity 3 for a leaf, arity 2 for a middle.
  function LeafKey(k: nat, v: Fr): Fr {
    Hash3(Num(k), v, Num(1))
  }

  function MidKey(l: Fr, r: Fr): Fr {
    Hash2(l, r)
  }
}
