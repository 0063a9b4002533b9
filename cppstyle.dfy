/** The two `cpp_printf` overloads. With no argument left the template is
    written as it is. Otherwise the template is copied up to its first `%`,
    the first argument is written there, and the remaining arguments are
    handed to a recursive call on the part of the template from that `%` on.
    That part still starts with the `%` just used, so every further argument
    is written at the same place, and the template from the first `%` on is
    written after the last argument. */
module CppStyle {
  import opened Arguments
  import opened Seqs

  /** The position of the first `%`, if there is one: where the iterator
      loop stops. */
  function FirstPercent(fmt: string): (k: Option<nat>)
    ensures k.Some? ==> k.value < |fmt| && fmt[k.value] == '%' && '%' !in fmt[..k.value]
    ensures k.None? <==> '%' !in fmt
    decreases |fmt|
  {
    if |fmt| == 0 then None
    else if fmt[0] == '%' then Some(0)
    else match FirstPercent(fmt[1..])
      case None => None
      case Some(j) =>
        assert fmt[..j + 1] == [fmt[0]] + fmt[1..][..j];
        Some(j + 1)
  }

  /** What `cpp_printf(fmt, args...)` writes. */
  function CppText(fmt: string, args: seq<Arg>, fmtDbl: Dbl -> string): (r: string)
    ensures FirstPercent(fmt).None? ==> r == fmt
    ensures FirstPercent(fmt).Some? ==> |r| == |fmt| + |RenderAll(args, fmtDbl)|
    decreases |args|
  {
    if |args| == 0 then fmt
    else match FirstPercent(fmt)
      case None => fmt
      case Some(k) =>
        assert fmt[k..][0] in fmt[k..];
        fmt[..k] + Render(args[0], fmtDbl) + CppText(fmt[k..], args[1..], fmtDbl)
  }

  /** The first `%` is the position a scan from the front stops at. */
  lemma {:induction false} FirstPercentAt(fmt: string, k: nat)
    requires k < |fmt| && fmt[k] == '%' && '%' !in fmt[..k]
    ensures FirstPercent(fmt) == Some(k)
    decreases k
  {
    if k > 0 {
      assert fmt[0] == fmt[..k][0];
      assert fmt[1..][..k - 1] == fmt[..k][1..];
      FirstPercentAt(fmt[1..], k - 1);
    }
  }

  // ---------------------------------------------------------------------------
  // The overloads

  /** `cpp_printf(fmt)` and `cpp_printf(fmt, head, tail...)`: returns what
      they write to `std::cout`. */
  method CppPrintf(fmt: string, args: seq<Arg>, fmtDbl: Dbl -> string) returns (out: string)
    ensures out == CppText(fmt, args, fmtDbl)
    decreases |args|
  {
    if |args| == 0 {
      out := fmt;
      return;
    }
    out := "";
    var it := 0;
    while it < |fmt|
      invariant it <= |fmt|
      invariant out == fmt[..it]
      invariant '%' !in fmt[..it]
    {
      if fmt[it] == '%' {
        FirstPercentAt(fmt, it);
        out := out + Render(args[0], fmtDbl);
        var rest := CppPrintf(fmt[it..], args[1..], fmtDbl);
        out := out + rest;
        return;
      } else {
        assert fmt[..it + 1] == fmt[..it] + [fmt[it]];
        out := out + [fmt[it]];
      }
      it := it + 1;
    }
    assert fmt[..it] == fmt;
  }

  // ---------------------------------------------------------------------------
  // What the output is

  /** Without arguments the template is written exactly. */
  lemma NoArguments(fmt: string, fmtDbl: Dbl -> string)
    ensures CppText(fmt, [], fmtDbl) == fmt
  {
  }

  /** Without `%` the template is written unchanged and every argument is
      ignored. */
  lemma NoPlaceholder(fmt: string, args: seq<Arg>, fmtDbl: Dbl -> string)
    requires '%' !in fmt
    ensures CppText(fmt, args, fmtDbl) == fmt
  {
  }

  /** One level of the recursion, once the first `%` is known to be at `k`. */
  lemma CppTextStep(fmt: string, args: seq<Arg>, fmtDbl: Dbl -> string, k: nat)
    requires |args| > 0 && k < |fmt| && fmt[k] == '%' && '%' !in fmt[..k]
    ensures CppText(fmt, args, fmtDbl)
         == fmt[..k] + Render(args[0], fmtDbl) + CppText(fmt[k..], args[1..], fmtDbl)
  {
    FirstPercentAt(fmt, k);
  }

  /** From a `%` at the front, all arguments are written before the rest of
      the template: the recursion keeps stopping on that same `%`. */
  lemma {:induction false} AtPercent(s: string, args: seq<Arg>, fmtDbl: Dbl -> string)
    requires |s| > 0 && s[0] == '%'
    ensures CppText(s, args, fmtDbl) == RenderAll(args, fmtDbl) + s
    decreases |args|
  {
    if |args| > 0 {
      assert s[..0] == "" && s[0..] == s;
      CppTextStep(s, args, fmtDbl, 0);
      AtPercent(s, args[1..], fmtDbl);
      AppendAssoc(Render(args[0], fmtDbl), RenderAll(args[1..], fmtDbl), s);
    }
  }

  /** The output for a template whose first `%` is at `k`: everything before
      it, then the texts of all arguments back to back, then the template from
      that `%` on, the `%` included. */
  lemma CollapseAtFirstPercent(fmt: string, args: seq<Arg>, fmtDbl: Dbl -> string, k: nat)
    requires k < |fmt| && fmt[k] == '%' && '%' !in fmt[..k]
    ensures CppText(fmt, args, fmtDbl) == fmt[..k] + RenderAll(args, fmtDbl) + fmt[k..]
  {
    if |args| == 0 {
      assert fmt == fmt[..k] + fmt[k..];
    } else {
      var pre, head, rest := fmt[..k], Render(args[0], fmtDbl), RenderAll(args[1..], fmtDbl);
      CppTextStep(fmt, args, fmtDbl, k);
      AtPercent(fmt[k..], args[1..], fmtDbl);
      AppendAssoc(pre + head, rest, fmt[k..]);
      AppendAssoc(pre, head, rest);
    }
  }

  /** Two arguments and two `%`: both texts land at the first `%`, and both
      `%` stay in the output. */
  lemma TwoArgumentsOnePlace(x: CString, y: CString, fmtDbl: Dbl -> string)
    ensures CppText("a%b%c", [StrArg(x), StrArg(y)], fmtDbl) == "a" + x + y + "%b%c"
  {
    var fmt, args := "a%b%c", [StrArg(x), StrArg(y)];
    assert fmt[..1] == "a" && fmt[1..] == "%b%c" && fmt[1] == '%';
    CollapseAtFirstPercent(fmt, args, fmtDbl, 1);
    assert args == [StrArg(x)] + [StrArg(y)];
    RenderAllAppend([StrArg(x)], [StrArg(y)], fmtDbl);
    RenderAllSingle(StrArg(x), fmtDbl);
    RenderAllSingle(StrArg(y), fmtDbl);
    AppendAssoc("a", x, y);
  }
}
