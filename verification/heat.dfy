/** Shared vocabulary of the heat-equation engine: the fixed physical extents,
    the two enumerations the user chooses from, and the four buffers the
    solver keeps between ticks. */
module Heat {

  /** Length of the spatial domain, centred on zero. */
  const kRangeX: real := 10.0
  /** Integration horizon. */
  const kRangeT: real := 1.0
  /** Smallest resolution the resolution spin box steps down to. */
  const kNxMin: nat := 32

  /** Time-stepping scheme; the order is the order of the tabs. */
  datatype Method = Explicit | Implicit | CrankNicolson

  /** Shape of the initial temperature profile. */
  datatype Profile = Gauss | SuperGauss | Rectangle | Delta

  /** The scheme selected by the tab with the given index. */
  function MethodOfTab(i: int): (m: Method)
    requires 0 <= i < 3
    ensures TabOfMethod(m) == i
  {
    if i == 0 then Explicit else if i == 1 then Implicit else CrankNicolson
  }

  /** Position of a scheme's tab. */
  function TabOfMethod(m: Method): (i: int)
    ensures 0 <= i < 3
  {
    match m
    case Explicit => 0
    case Implicit => 1
    case CrankNicolson => 2
  }

  /** The live state, the scratch buffer it is double-buffered with, and the
      two forward-elimination coefficient buffers of the tridiagonal solve. */
  datatype Buffers = Buffers(state: seq<real>, scratch: seq<real>, tdmaU: seq<real>, tdmaV: seq<real>)
  {
    /** Sizes as the buffers are allocated: nx >= 2 samples, scratch of the
        same length, coefficient buffers one shorter. */
    predicate WellFormed() {
      && |state| >= 2
      && |scratch| == |state|
      && |tdmaU| == |state| - 1
      && |tdmaV| == |state| - 1
    }
  }

  /** The product of two nonnegative reals is nonnegative; the sign facts
      behind the maximum principle and the pivot bounds rest on it. */
  lemma NonnegativeProduct(a: real, b: real)
    requires a >= 0.0 && b >= 0.0
    ensures a * b >= 0.0
  {
  }
}
