/** One generation of scan results, stored as parallel columns
    (crates/nemclass-scan/src/results.rs). */
module ResultColumns {
  import opened Memory

  datatype Row = Row(address: nat, current: seq<Byte>, previous: seq<Byte>)

  /** Exactly `stride` bytes of `src`: truncated, or padded with zeroes. */
  function Fit(src: seq<Byte>, stride: nat): (s: seq<Byte>)
    ensures |s| == stride
    ensures |src| == stride ==> s == src
    ensures forall i :: 0 <= i < stride ==> s[i] == if i < |src| then src[i] else 0
  {
    if |src| >= stride then src[..stride] else src + seq(stride - |src|, _ => 0)
  }

  lemma ColumnBounds(i: nat, n: nat, stride: nat)
    requires i < n
    ensures 0 <= i * stride <= (i + 1) * stride <= n * stride
    ensures (i + 1) * stride == i * stride + stride
  {
    MulMono(i, i + 1, stride);
    MulMono(i + 1, n, stride);
  }

  lemma {:induction false} MulMono(a: nat, b: nat, s: nat)
    requires a <= b
    ensures 0 <= a * s <= b * s
    decreases b - a
  {
    if a < b {
      MulMono(a + 1, b, s);
      assert (a + 1) * s == a * s + s;
    }
  }

  /** Value `i` of a column. */
  function Cell(column: seq<Byte>, i: nat, n: nat, stride: nat): (s: seq<Byte>)
    requires i < n && |column| == n * stride
    ensures |s| == stride
  {
    ColumnBounds(i, n, stride);
    column[i * stride..(i + 1) * stride]
  }

  lemma CellOfAppend(column: seq<Byte>, more: seq<Byte>, i: nat, n: nat, stride: nat)
    requires i <= n && |column| == n * stride && |more| == stride
    ensures |column + more| == (n + 1) * stride
    ensures Cell(column + more, i, n + 1, stride) == if i < n then Cell(column, i, n, stride) else more
  {
    ColumnBounds(i, n + 1, stride);
    ColumnBounds(n, n + 1, stride);
    if i < n {
      ColumnBounds(i, n, stride);
      assert (column + more)[i * stride..(i + 1) * stride] == column[i * stride..(i + 1) * stride];
    } else {
      assert (column + more)[i * stride..(i + 1) * stride] == more;
    }
  }

  class ScanResults {
    const stride: nat
    var addresses: seq<nat>
    var current: seq<Byte>
    var previous: seq<Byte>

    ghost predicate Valid()
      reads this
    {
      |current| == |addresses| * stride && |previous| == |addresses| * stride
    }

    ghost function Rows(): (rows: seq<Row>)
      requires Valid()
      reads this
      ensures |rows| == |addresses|
    {
      seq(|addresses|, i requires 0 <= i < |addresses| && Valid() reads this =>
        Row(addresses[i], Cell(current, i, |addresses|, stride), Cell(previous, i, |addresses|, stride)))
    }

    constructor (stride: nat)
      ensures this.stride == stride && Valid() && Rows() == []
    {
      this.stride := stride;
      addresses, current, previous := [], [], [];
    }

    /** Appends a match; values of another width cannot desync the columns. */
    method Push(address: nat, cur: seq<Byte>, prev: seq<Byte>)
      requires Valid()
      modifies this
      ensures Valid()
      ensures Rows() == old(Rows()) + [Row(address, Fit(cur, stride), Fit(prev, stride))]
    {
      ghost var rows, n := Rows(), |addresses|;
      forall i | 0 <= i <= n
        ensures |current + Fit(cur, stride)| == (n + 1) * stride && |previous + Fit(prev, stride)| == (n + 1) * stride
        ensures Cell(current + Fit(cur, stride), i, n + 1, stride)
             == if i < n then Cell(current, i, n, stride) else Fit(cur, stride)
        ensures Cell(previous + Fit(prev, stride), i, n + 1, stride)
             == if i < n then Cell(previous, i, n, stride) else Fit(prev, stride)
      {
        CellOfAppend(current, Fit(cur, stride), i, n, stride);
        CellOfAppend(previous, Fit(prev, stride), i, n, stride);
      }
      addresses := addresses + [address];
      current := current + Fit(cur, stride);
      previous := previous + Fit(prev, stride);
      assert Valid() by {
        CellOfAppend(old(current), Fit(cur, stride), 0, n, stride);
        CellOfAppend(old(previous), Fit(prev, stride), 0, n, stride);
      }
      ghost var all := rows + [Row(address, Fit(cur, stride), Fit(prev, stride))];
      assert forall i :: 0 <= i < |all| ==> Rows()[i] == all[i];
    }

    method Get(index: nat) returns (r: Option<Row>)
      requires Valid()
      ensures r == if index < |Rows()| then Some(Rows()[index]) else None
    {
      if index >= |addresses| {
        return None;
      }
      r := Some(Row(addresses[index], Cell(current, index, |addresses|, stride),
                    Cell(previous, index, |addresses|, stride)));
    }
  }
}
