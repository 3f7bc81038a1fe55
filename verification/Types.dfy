/** Values shared by every component: machine words, hashes, accounts and transactions. */
module Types {

  const U64: nat := 0x1_0000_0000_0000_0000
  const I63: nat := 0x8000_0000_0000_0000
  const MAX_UINT64: nat := U64 - 1

  type uint64 = n: nat | n < U64
  type byte = n: nat | n < 256

  /** Addresses and hashes carry no structure here; only their identity matters. */
  type Address = nat
  type Hash = nat

  /** `common.Hash{}`, which the database helpers return for "not found". */
  const ZERO_HASH: Hash := 0

  datatype Option<+T> = None | Some(value: T)

  /** A signed transaction. `seal` stands for the signature, so that two transactions
      with the same payload may still be different; equal values have equal hashes and
      distinct values distinct hashes. `to` is `None` for a contract creation. */
  datatype Tx = Tx(from: Address, nonce: uint64, price: nat, gas: uint64, value: nat,
                   to: Option<Address>, data: seq<byte>, seal: nat)

  /** The price of an amount of gas. */
  function Fee(gas: nat, price: nat): nat {
    gas * price
  }

  /** What the sender pays up front for gas. */
  function FeeCap(t: Tx): nat {
    Fee(t.gas, t.price)
  }

  /** `Transaction.Cost`: gas at the full limit plus the transferred value. */
  function Cost(t: Tx): nat {
    FeeCap(t) + t.value
  }

  /** 64-bit increment, wrapping around at 2^64. */
  function Inc(n: uint64): uint64 {
    if n == MAX_UINT64 then 0 else n + 1
  }
}
