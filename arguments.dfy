/** The arguments handed to the two printf imitations, and the text
    `std::cout <<` writes for each of them. */
module Arguments {
  import Decimal

  datatype Option<T> = None | Some(value: T)

  /** A C++ `int`: 32 bits, two's complement. */
  type Int32 = n: int | -0x8000_0000 <= n < 0x8000_0000

  /** A C++ `double`, as its IEEE 754 binary64 bit pattern. Its text is not
      modelled: every operation takes the renderer `fmtDbl` as a parameter. */
  type Dbl = bv64

  /** The characters of a `const char*` before its terminating NUL. */
  type CString = s: string | '\0' !in s

  /** A variadic argument, tagged with the kind of value it carries. */
  datatype Arg = IntArg(n: Int32) | StrArg(s: CString) | DblArg(d: Dbl)

  datatype Kind = KInt | KStr | KDbl

  function KindOf(a: Arg): Kind {
    match a
    case IntArg(_) => KInt
    case StrArg(_) => KStr
    case DblArg(_) => KDbl
  }

  /** The text `std::cout << a` writes. */
  function Render(a: Arg, fmtDbl: Dbl -> string): (r: string)
    ensures a.IntArg? ==> |r| >= 1 && ((r[0] == '-') <==> (a.n < 0))
    ensures a.StrArg? ==> r == a.s && '\0' !in r
    ensures a.DblArg? ==> r == fmtDbl(a.d)
  {
    match a
    case IntArg(n) => Decimal.Text(n as int)
    case StrArg(s) => s
    case DblArg(d) => fmtDbl(d)
  }

  /** An `int` argument's text reads back to its value. */
  lemma RenderIntReadBack(n: Int32, fmtDbl: Dbl -> string)
    ensures var r := Render(IntArg(n), fmtDbl);
            |r| >= 1 && (r[0] == '-' ==> Decimal.AllDigits(r[1..])) &&
            (r[0] != '-' ==> Decimal.AllDigits(r)) && Decimal.Parse(r) == n as int
  {
    Decimal.TextShape(n as int);
    Decimal.ParseText(n as int);
  }

  /** The texts of all arguments, back to back. */
  function RenderAll(args: seq<Arg>, fmtDbl: Dbl -> string): string
    decreases |args|
  {
    if |args| == 0 then "" else Render(args[0], fmtDbl) + RenderAll(args[1..], fmtDbl)
  }

  /** The texts of two runs of arguments, one after the other. */
  lemma {:induction false} RenderAllAppend(xs: seq<Arg>, ys: seq<Arg>, fmtDbl: Dbl -> string)
    ensures RenderAll(xs + ys, fmtDbl) == RenderAll(xs, fmtDbl) + RenderAll(ys, fmtDbl)
    decreases |xs|
  {
    if |xs| == 0 {
      assert xs + ys == ys;
    } else {
      assert (xs + ys)[0] == xs[0] && (xs + ys)[1..] == xs[1..] + ys;
      RenderAllAppend(xs[1..], ys, fmtDbl);
    }
  }

  lemma RenderAllSingle(x: Arg, fmtDbl: Dbl -> string)
    ensures RenderAll([x], fmtDbl) == Render(x, fmtDbl)
  {
    assert [x][1..] == [];
  }

  /** The text of each argument, one per argument. */
  function RenderEach(args: seq<Arg>, fmtDbl: Dbl -> string): (texts: seq<string>)
    ensures |texts| == |args|
    decreases |args|
  {
    if |args| == 0 then [] else [Render(args[0], fmtDbl)] + RenderEach(args[1..], fmtDbl)
  }
}
