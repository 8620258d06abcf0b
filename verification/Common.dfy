/** Result shapes shared by every component of the model. */
module Common {

  datatype Option<+T> = None | Some(value: T)

  /** The typed error set that crosses the persistence edge. */
  datatype VaultError =
    | InvalidDelivery(field: string)
    | IllegalTransition
    | StorageFailed

  /** A transaction either commits a value or reports an error with nothing committed. */
  datatype Result<+T> = Ok(value: T) | Err(error: VaultError)

  /** The largest policy version the storage column holds. */
  const I64_MAX: nat := 0x7fff_ffff_ffff_ffff

  /** The largest value of an unsigned 64-bit counter. */
  const U64_MAX: nat := 0xffff_ffff_ffff_ffff

  type U64 = n: nat | n <= U64_MAX

  /** `checked_add`: absent when the sum does not fit. */
  function CheckedAdd(a: U64, b: U64): (r: Option<U64>) {
    if a + b <= U64_MAX then Some(a + b) else None
  }

  lemma {:induction false} MaxExists(numbers: set<nat>)
    requires numbers != {}
    ensures exists m :: m in numbers && forall n | n in numbers :: n <= m
  {
    var pick :| pick in numbers;
    var rest := numbers - {pick};
    if rest == {} {
      assert numbers == {pick};
    } else {
      MaxExists(rest);
      var m :| m in rest && forall n | n in rest :: n <= m;
      var top := if m < pick then pick else m;
      forall n | n in numbers
        ensures n <= top
      {
        assert n == pick || n in rest;
      }
    }
  }

  /** The greatest element, as `order by ... desc limit 1` reads it. */
  function MaxOf(numbers: set<nat>): (m: nat)
    requires numbers != {}
    ensures m in numbers && forall n | n in numbers :: n <= m
  {
    MaxExists(numbers);
    var m :| m in numbers && forall n | n in numbers :: n <= m;
    m
  }

  lemma {:induction false} MinExists(numbers: set<nat>)
    requires numbers != {}
    ensures exists m :: m in numbers && forall n | n in numbers :: m <= n
  {
    var pick :| pick in numbers;
    var rest := numbers - {pick};
    if rest == {} {
      assert numbers == {pick};
    } else {
      MinExists(rest);
      var m :| m in rest && forall n | n in rest :: m <= n;
      assert numbers == rest + {pick};
      if m < pick {
        assert m in numbers && forall n | n in numbers :: m <= n;
      } else {
        assert pick in numbers && forall n | n in numbers :: pick <= n;
      }
    }
  }

  function MinOf(numbers: set<nat>): (m: nat)
    requires numbers != {}
    ensures m in numbers && forall n | n in numbers :: m <= n
  {
    MinExists(numbers);
    var m :| m in numbers && forall n | n in numbers :: m <= n;
    m
  }

  /** The elements of a finite set in ascending order, as `order by` lists them. */
  function Ascending(numbers: set<nat>): (listed: seq<nat>)
    ensures forall n :: n in listed <==> n in numbers
    ensures forall i, j | 0 <= i < j < |listed| :: listed[i] < listed[j]
  {
    if numbers == {} then []
    else
      var m := MinOf(numbers);
      var rest := Ascending(numbers - {m});
      assert forall j | 0 <= j < |rest| :: rest[j] in rest;
      [m] + rest
  }
}
