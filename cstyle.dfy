/** `cstyle_printf`: the format string is read left to right in pieces. A `%`
    that has a character after it starts a two-character pair: `%d`, `%s` and
    `%f` are placeholders that take the next argument; any other pair writes
    `%` and drops its second character. Every other character is copied,
    a `%` that the scan reaches in the last position included. */
module CStyle {
  import opened Arguments
  import opened Seqs
  import Decimal

  /** One step of the scan: a copied character, a placeholder pair, or a pair
      whose second character is not a marker and is dropped. */
  datatype Piece = Literal(c: char) | Placeholder(k: Kind) | Dropped(x: char)

  /** The kind a marker character asks for, if it is one. */
  function MarkerKind(c: char): (r: Option<Kind>)
    ensures r.Some? <==> c in "dsf"
  {
    match c
    case 'd' => Some(KInt)
    case 's' => Some(KStr)
    case 'f' => Some(KDbl)
    case _ => None
  }

  function MarkerChar(k: Kind): char {
    match k
    case KInt => 'd'
    case KStr => 's'
    case KDbl => 'f'
  }

  lemma MarkerCharKind(k: Kind)
    ensures MarkerKind(MarkerChar(k)) == Some(k)
  {
  }

  /** The piece a `%` followed by `c` makes. */
  function Pair(c: char): Piece {
    match MarkerKind(c)
    case Some(k) => Placeholder(k)
    case None => Dropped(c)
  }

  /** The non-overlapping left-to-right scan of the format string. */
  function Scan(fmt: string): (ps: seq<Piece>)
    decreases |fmt|
  {
    if |fmt| == 0 then []
    else if fmt[0] == '%' && 1 < |fmt| then [Pair(fmt[1])] + Scan(fmt[2..])
    else [Literal(fmt[0])] + Scan(fmt[1..])
  }

  /** The characters of the format string a piece stands for. */
  function Source(p: Piece): string {
    match p
    case Literal(c) => [c]
    case Placeholder(k) => ['%', MarkerChar(k)]
    case Dropped(x) => ['%', x]
  }

  function Sources(ps: seq<Piece>): string
    decreases |ps|
  {
    if |ps| == 0 then "" else Source(ps[0]) + Sources(ps[1..])
  }

  /** The piece sequences the scan can produce: a dropped character is never
      a marker, and a copied `%` can only be the last piece. */
  predicate WellFormed(ps: seq<Piece>) {
    forall t :: 0 <= t < |ps| ==>
      match ps[t]
      case Literal(c) => c != '%' || t == |ps| - 1
      case Dropped(x) => MarkerKind(x).None?
      case Placeholder(_) => true
  }

  /** The scan ends on a `%` it copied, because nothing followed it. */
  predicate EndsLone(ps: seq<Piece>) {
    |ps| > 0 && ps[|ps| - 1] == Literal('%')
  }

  /** The kinds of the placeholders, in order: what the arguments must supply. */
  function MarkerKinds(ps: seq<Piece>): seq<Kind>
    decreases |ps|
  {
    if |ps| == 0 then [] else PieceKinds(ps[0]) + MarkerKinds(ps[1..])
  }

  function PieceKinds(p: Piece): seq<Kind> {
    if p.Placeholder? then [p.k] else []
  }

  /** There are enough arguments, and each has the kind its placeholder reads
      it as (otherwise `va_arg` has undefined behaviour). */
  predicate Fits(kinds: seq<Kind>, args: seq<Arg>)
    decreases |kinds|
  {
    |kinds| <= |args| &&
    (|kinds| > 0 ==> KindOf(args[0]) == kinds[0] && Fits(kinds[1..], args[1..]))
  }

  /** What the pieces write, taking the arguments from the front. */
  function Emit(ps: seq<Piece>, args: seq<Arg>, fmtDbl: Dbl -> string): (out: string)
    requires |MarkerKinds(ps)| <= |args|
    decreases |ps|
  {
    if |ps| == 0 then ""
    else match ps[0]
      case Literal(c) => [c] + Emit(ps[1..], args, fmtDbl)
      case Dropped(_) => "%" + Emit(ps[1..], args, fmtDbl)
      case Placeholder(_) => Render(args[0], fmtDbl) + Emit(ps[1..], args[1..], fmtDbl)
  }

  // ---------------------------------------------------------------------------
  // The scan

  /** Every character of the format string lies in exactly one piece, in order. */
  lemma {:induction false} ScanSources(fmt: string)
    ensures Sources(Scan(fmt)) == fmt
    decreases |fmt|
  {
    if |fmt| == 0 {
    } else if fmt[0] == '%' && 1 < |fmt| {
      ScanSources(fmt[2..]);
      assert Source(Pair(fmt[1])) == fmt[..2];
      assert fmt == fmt[..2] + fmt[2..];
    } else {
      ScanSources(fmt[1..]);
      assert fmt == [fmt[0]] + fmt[1..];
    }
  }

  /** The characters two joined piece sequences stand for. */
  lemma {:induction false} SourcesAppend(ps: seq<Piece>, qs: seq<Piece>)
    ensures Sources(ps + qs) == Sources(ps) + Sources(qs)
    decreases |ps|
  {
    if |ps| > 0 {
      assert (ps + qs)[0] == ps[0] && (ps + qs)[1..] == ps[1..] + qs;
      SourcesAppend(ps[1..], qs);
      AppendAssoc(Source(ps[0]), Sources(ps[1..]), Sources(qs));
    } else {
      assert ps + qs == qs;
    }
  }

  /** Piece `t` stands for the characters between those of the pieces
      before it and those of the pieces after it. */
  lemma SourcesAt(ps: seq<Piece>, t: nat)
    requires t < |ps|
    ensures Sources(ps) == Sources(ps[..t]) + (Source(ps[t]) + Sources(ps[t + 1..]))
  {
    SplitAt(ps, t);
    SourcesAppend(ps[..t], [ps[t]] + ps[t + 1..]);
  }

  /** Each piece of the scan stands for the characters of the format string
      right after those of the earlier pieces: the format string is the
      earlier pieces' characters, then piece `t`'s, then the later pieces'. */
  lemma ScanSourceAt(fmt: string, t: nat)
    requires t < |Scan(fmt)|
    ensures fmt == Sources(Scan(fmt)[..t]) + (Source(Scan(fmt)[t]) + Sources(Scan(fmt)[t + 1..]))
  {
    ScanSources(fmt);
    SourcesAt(Scan(fmt), t);
  }

  lemma {:induction false} ScanWellFormed(fmt: string)
    ensures WellFormed(Scan(fmt))
    ensures EndsLone(Scan(fmt)) ==> fmt[|fmt| - 1] == '%'
    decreases |fmt|
  {
    if |fmt| == 0 {
    } else if fmt[0] == '%' && 1 < |fmt| {
      ScanWellFormed(fmt[2..]);
      var rest := Scan(fmt[2..]);
      assert Scan(fmt) == [Pair(fmt[1])] + rest;
      if EndsLone(Scan(fmt)) {
        assert Scan(fmt)[|Scan(fmt)| - 1] == rest[|rest| - 1];
      }
    } else {
      ScanWellFormed(fmt[1..]);
      var rest := Scan(fmt[1..]);
      assert Scan(fmt) == [Literal(fmt[0])] + rest;
      if fmt[0] == '%' {
        assert |fmt| == 1 && rest == [];
      }
      if EndsLone(Scan(fmt)) && rest != [] {
        assert Scan(fmt)[|Scan(fmt)| - 1] == rest[|rest| - 1];
      }
    }
  }

  /** Scanning the text of well-formed pieces gives those pieces back: with
      `ScanSources`, the scan is a one-to-one split of the format string. */
  lemma {:induction false} SourcesScan(ps: seq<Piece>)
    requires WellFormed(ps)
    ensures Scan(Sources(ps)) == ps
    decreases |ps|
  {
    if |ps| > 0 {
      var rest := Sources(ps[1..]);
      assert WellFormed(ps[1..]) by {
        forall t | 0 <= t < |ps[1..]|
          ensures match ps[1..][t]
                  case Literal(c) => c != '%' || t == |ps[1..]| - 1
                  case Dropped(x) => MarkerKind(x).None?
                  case Placeholder(_) => true
        {
          assert ps[1..][t] == ps[t + 1];
        }
      }
      SourcesScan(ps[1..]);
      var s := Sources(ps);
      assert s == Source(ps[0]) + rest;
      match ps[0]
      case Literal(c) =>
        if c == '%' {
          assert |ps| == 1;
          assert s == "%";
        } else {
          assert s[1..] == rest;
        }
      case Placeholder(k) =>
        MarkerCharKind(k);
        assert s[2..] == rest;
      case Dropped(x) =>
        assert s[2..] == rest;
    }
  }

  /** The scan of a concatenation is the concatenation of the scans, unless
      the first part ends on a `%` the scan copied (that `%` would pair with
      the start of the second part). */
  lemma {:induction false} ScanAppend(p: string, q: string)
    requires !EndsLone(Scan(p))
    ensures Scan(p + q) == Scan(p) + Scan(q)
    decreases |p|
  {
    if |p| == 0 {
      assert p + q == q;
    } else {
      var w := if p[0] == '%' && 1 < |p| then 2 else 1;
      var first := if w == 2 then Pair(p[1]) else Literal(p[0]);
      assert p[0] == '%' ==> w == 2 by {
        if p[0] == '%' && |p| == 1 {
          assert false;
        }
      }
      var pq := p + q;
      assert pq[0] == p[0] && (w == 2 ==> pq[1] == p[1]);
      assert pq[w..] == p[w..] + q;
      assert Scan(p) == [first] + Scan(p[w..]);
      assert Scan(pq) == [first] + Scan(p[w..] + q);
      assert !EndsLone(Scan(p[w..])) by {
        if Scan(p[w..]) != [] {
          assert Scan(p)[|Scan(p)| - 1] == Scan(p[w..])[|Scan(p[w..])| - 1];
        }
      }
      ScanAppend(p[w..], q);
      AppendAssoc([first], Scan(p[w..]), Scan(q));
    }
  }

  // ---------------------------------------------------------------------------
  // What the pieces write

  lemma {:induction false} MarkerKindsAppend(ps: seq<Piece>, qs: seq<Piece>)
    ensures MarkerKinds(ps + qs) == MarkerKinds(ps) + MarkerKinds(qs)
    decreases |ps|
  {
    if |ps| == 0 {
      assert ps + qs == qs;
    } else {
      var pq := ps + qs;
      assert pq[0] == ps[0] && pq[1..] == ps[1..] + qs;
      MarkerKindsAppend(ps[1..], qs);
      calc {
        MarkerKinds(pq);
        PieceKinds(ps[0]) + MarkerKinds(ps[1..] + qs);
        PieceKinds(ps[0]) + (MarkerKinds(ps[1..]) + MarkerKinds(qs));
        (PieceKinds(ps[0]) + MarkerKinds(ps[1..])) + MarkerKinds(qs);
      }
    }
  }

  /** What one piece writes, given the arguments still unread. */
  function PieceText(p: Piece, args: seq<Arg>, fmtDbl: Dbl -> string): string
    requires |PieceKinds(p)| <= |args|
  {
    match p
    case Literal(c) => [c]
    case Dropped(_) => "%"
    case Placeholder(_) => Render(args[0], fmtDbl)
  }

  /** One piece in front of others. */
  lemma EmitCons(p: Piece, rest: seq<Piece>, args: seq<Arg>, fmtDbl: Dbl -> string)
    requires |PieceKinds(p)| + |MarkerKinds(rest)| <= |args|
    ensures MarkerKinds([p] + rest) == PieceKinds(p) + MarkerKinds(rest)
    ensures Emit([p] + rest, args, fmtDbl)
         == PieceText(p, args, fmtDbl) + Emit(rest, args[|PieceKinds(p)|..], fmtDbl)
  {
    assert ([p] + rest)[0] == p && ([p] + rest)[1..] == rest;
  }

  /** One step of the scan, from position `i` of the format string. */
  lemma ScanAt(fmt: string, i: nat)
    requires i < |fmt|
    ensures fmt[i] == '%' && i + 1 < |fmt| ==> Scan(fmt[i..]) == [Pair(fmt[i + 1])] + Scan(fmt[i + 2..])
    ensures !(fmt[i] == '%' && i + 1 < |fmt|) ==> Scan(fmt[i..]) == [Literal(fmt[i])] + Scan(fmt[i + 1..])
  {
    var s := fmt[i..];
    assert s[0] == fmt[i];
    if fmt[i] == '%' && i + 1 < |fmt| {
      assert s[1] == fmt[i + 1] && s[2..] == fmt[i + 2..];
    } else {
      assert s[1..] == fmt[i + 1..];
    }
  }

  lemma {:induction false} FitsCons(k: seq<Kind>, rest: seq<Kind>, args: seq<Arg>)
    requires Fits(k + rest, args)
    ensures Fits(rest, args[|k|..])
    decreases |k|
  {
    if |k| == 0 {
      assert k + rest == rest && args[|k|..] == args;
    } else {
      assert (k + rest)[0] == k[0] && (k + rest)[1..] == k[1..] + rest;
      FitsCons(k[1..], rest, args[1..]);
      assert args[1..][|k| - 1..] == args[|k|..];
    }
  }

  /** Writing two runs of pieces one after the other: the second run takes its
      arguments where the first one stopped. */
  lemma {:induction false} EmitAppend(ps: seq<Piece>, qs: seq<Piece>, args: seq<Arg>, fmtDbl: Dbl -> string)
    requires |MarkerKinds(ps)| + |MarkerKinds(qs)| <= |args|
    ensures |MarkerKinds(ps + qs)| <= |args|
    ensures Emit(ps + qs, args, fmtDbl)
         == Emit(ps, args, fmtDbl) + Emit(qs, args[|MarkerKinds(ps)|..], fmtDbl)
    decreases |ps|
  {
    MarkerKindsAppend(ps, qs);
    if |ps| == 0 {
      assert ps + qs == qs;
    } else {
      var p, tail := ps[0], ps[1..];
      var w := |PieceKinds(p)|;
      assert ps == [p] + tail && ps + qs == [p] + (tail + qs);
      MarkerKindsAppend(tail, qs);
      EmitCons(p, tail + qs, args, fmtDbl);
      EmitCons(p, tail, args, fmtDbl);
      EmitAppend(tail, qs, args[w..], fmtDbl);
      assert args[w..][|MarkerKinds(tail)|..] == args[|MarkerKinds(ps)|..];
      AppendAssoc(PieceText(p, args, fmtDbl), Emit(tail, args[w..], fmtDbl),
                  Emit(qs, args[|MarkerKinds(ps)|..], fmtDbl));
    }
  }

  /** Arguments beyond the placeholders are never read. */
  lemma {:induction false} EmitIgnoresExtra(ps: seq<Piece>, args: seq<Arg>, fmtDbl: Dbl -> string)
    requires |MarkerKinds(ps)| <= |args|
    ensures Emit(ps, args, fmtDbl) == Emit(ps, args[..|MarkerKinds(ps)|], fmtDbl)
    decreases |ps|
  {
    if |ps| > 0 {
      EmitIgnoresExtra(ps[1..], if ps[0].Placeholder? then args[1..] else args, fmtDbl);
      if ps[0].Placeholder? {
        assert args[..|MarkerKinds(ps)|][1..] == args[1..][..|MarkerKinds(ps[1..])|];
      }
    }
  }

  /** Piece `t` writes its own text at its place: a copied character itself,
      a dropped pair `%`, and a placeholder the text of argument `j`, where
      `j` counts the placeholders before it. */
  lemma EmitAt(ps: seq<Piece>, args: seq<Arg>, fmtDbl: Dbl -> string, t: nat)
    requires |MarkerKinds(ps)| <= |args|
    requires t < |ps|
    ensures var j := |MarkerKinds(ps[..t])|;
            var w := |PieceKinds(ps[t])|;
            j + w <= |args| && |MarkerKinds(ps[t + 1..])| <= |args| - (j + w) &&
            Emit(ps, args, fmtDbl)
              == Emit(ps[..t], args, fmtDbl) + PieceText(ps[t], args[j..], fmtDbl)
                 + Emit(ps[t + 1..], args[j + w..], fmtDbl)
  {
    var j := |MarkerKinds(ps[..t])|;
    var w := |PieceKinds(ps[t])|;
    var before, after := ps[..t], ps[t + 1..];
    SplitAt(ps, t);
    MarkerKindsAppend(before, [ps[t]] + after);
    EmitCons(ps[t], after, args[j..], fmtDbl);
    EmitAppend(before, [ps[t]] + after, args, fmtDbl);
    assert args[j..][w..] == args[j + w..];
    AppendAssoc(Emit(before, args, fmtDbl), PieceText(ps[t], args[j..], fmtDbl),
                Emit(after, args[j + w..], fmtDbl));
  }

  /** The placeholder at piece `t` takes exactly one argument, the one after
      those the earlier placeholders took, and writes its text there. */
  lemma PlaceholderSubstitution(ps: seq<Piece>, args: seq<Arg>, fmtDbl: Dbl -> string, t: nat)
    requires |MarkerKinds(ps)| <= |args|
    requires t < |ps| && ps[t].Placeholder?
    ensures var j := |MarkerKinds(ps[..t])|;
            j < |args| && |MarkerKinds(ps[t + 1..])| <= |args| - (j + 1) &&
            Emit(ps, args, fmtDbl)
              == Emit(ps[..t], args, fmtDbl) + Render(args[j], fmtDbl)
                 + Emit(ps[t + 1..], args[j + 1..], fmtDbl)
  {
    EmitAt(ps, args, fmtDbl, t);
    var j := |MarkerKinds(ps[..t])|;
    assert args[j..][0] == args[j];
  }

  /** `%` followed by a character that is no marker: `%` is written, the
      character is dropped, and no argument is read. */
  lemma UnknownPair(c: char, rest: string, args: seq<Arg>, fmtDbl: Dbl -> string)
    requires c !in "dsf"
    requires |MarkerKinds(Scan(rest))| <= |args|
    ensures Scan(['%', c] + rest) == [Dropped(c)] + Scan(rest)
    ensures MarkerKinds(Scan(['%', c] + rest)) == MarkerKinds(Scan(rest))
    ensures Emit(Scan(['%', c] + rest), args, fmtDbl) == "%" + Emit(Scan(rest), args, fmtDbl)
  {
    var s := ['%', c] + rest;
    assert s[0] == '%' && s[1] == c && s[2..] == rest;
    EmitCons(Dropped(c), Scan(rest), args, fmtDbl);
  }

  /** A format string without `%` is written as it is, and reads no argument. */
  lemma {:induction false} NoPercentVerbatim(fmt: string, args: seq<Arg>, fmtDbl: Dbl -> string)
    requires '%' !in fmt
    ensures MarkerKinds(Scan(fmt)) == []
    ensures Emit(Scan(fmt), args, fmtDbl) == fmt
    decreases |fmt|
  {
    if |fmt| > 0 {
      assert fmt[0] in fmt;
      assert '%' !in fmt[1..] by {
        forall i | 0 <= i < |fmt[1..]| ensures fmt[1..][i] != '%' {
          assert fmt[1..][i] == fmt[i + 1];
        }
      }
      NoPercentVerbatim(fmt[1..], args, fmtDbl);
      assert fmt == [fmt[0]] + fmt[1..];
    }
  }

  /** A `%` added at the very end, where the scan reaches it alone, is copied
      and reads no argument. */
  lemma TrailingPercent(p: string, args: seq<Arg>, fmtDbl: Dbl -> string)
    requires !EndsLone(Scan(p))
    requires |MarkerKinds(Scan(p))| <= |args|
    ensures Scan(p + "%") == Scan(p) + [Literal('%')]
    ensures MarkerKinds(Scan(p + "%")) == MarkerKinds(Scan(p))
    ensures Emit(Scan(p + "%"), args, fmtDbl) == Emit(Scan(p), args, fmtDbl) + "%"
  {
    ScanAppend(p, "%");
    assert Scan("%") == [Literal('%')];
    MarkerKindsAppend(Scan(p), [Literal('%')]);
    EmitAppend(Scan(p), [Literal('%')], args, fmtDbl);
  }

  /** `%%d` writes `%d` and reads no argument: the second `%` is dropped and
      the `d` is copied. */
  lemma EscapedMarker(args: seq<Arg>, fmtDbl: Dbl -> string)
    ensures Scan("%%d") == [Dropped('%'), Literal('d')]
    ensures MarkerKinds(Scan("%%d")) == []
    ensures Emit(Scan("%%d"), args, fmtDbl) == "%d"
  {
    assert "%%d"[2..] == "d";
  }

  /** A `%` in the last position that is the second character of a pair is
      not copied: `%%` added at the end writes a single `%` (so `a%%` writes
      `a%`), because the first `%` pairs with the last one. */
  lemma PairedFinalPercent(p: string, args: seq<Arg>, fmtDbl: Dbl -> string)
    requires !EndsLone(Scan(p))
    requires |MarkerKinds(Scan(p))| <= |args|
    ensures Scan(p + "%%") == Scan(p) + [Dropped('%')]
    ensures MarkerKinds(Scan(p + "%%")) == MarkerKinds(Scan(p))
    ensures Emit(Scan(p + "%%"), args, fmtDbl) == Emit(Scan(p), args, fmtDbl) + "%"
  {
    ScanAppend(p, "%%");
    assert "%%"[2..] == "";
    assert Scan("%%") == [Dropped('%')];
    MarkerKindsAppend(Scan(p), [Dropped('%')]);
    EmitAppend(Scan(p), [Dropped('%')], args, fmtDbl);
  }

  /** Gluing two format strings where the first does not end in `%`: the
      output is the two outputs one after the other, the second reading the
      arguments the first left. */
  lemma EmitConcat(p: string, q: string, args: seq<Arg>, fmtDbl: Dbl -> string)
    requires p == "" || p[|p| - 1] != '%'
    requires |MarkerKinds(Scan(p))| + |MarkerKinds(Scan(q))| <= |args|
    ensures Scan(p + q) == Scan(p) + Scan(q)
    ensures MarkerKinds(Scan(p + q)) == MarkerKinds(Scan(p)) + MarkerKinds(Scan(q))
    ensures Emit(Scan(p + q), args, fmtDbl)
         == Emit(Scan(p), args, fmtDbl) + Emit(Scan(q), args[|MarkerKinds(Scan(p))|..], fmtDbl)
  {
    ScanWellFormed(p);
    ScanAppend(p, q);
    MarkerKindsAppend(Scan(p), Scan(q));
    EmitAppend(Scan(p), Scan(q), args, fmtDbl);
  }

  /** A placeholder pair on its own writes the text of the first argument. */
  lemma LonePlaceholder(c: char, args: seq<Arg>, fmtDbl: Dbl -> string)
    requires c in "dsf" && |args| >= 1
    ensures MarkerKinds(Scan(['%', c])) == [MarkerKind(c).value]
    ensures Emit(Scan(['%', c]), args, fmtDbl) == Render(args[0], fmtDbl)
  {
    assert ['%', c][2..] == [];
  }

  /** A format string made of literal runs without `%` and, between them,
      placeholder pairs with the marker characters `marks`. */
  function Template(lits: seq<string>, marks: string): string
    requires |lits| == |marks| + 1
    decreases |marks|
  {
    if |marks| == 0 then lits[0]
    else lits[0] + (['%', marks[0]] + Template(lits[1..], marks[1..]))
  }

  /** The literal runs with the given texts between them. */
  function Filled(lits: seq<string>, texts: seq<string>): string
    requires |lits| == |texts| + 1
    decreases |texts|
  {
    if |texts| == 0 then lits[0]
    else lits[0] + (texts[0] + Filled(lits[1..], texts[1..]))
  }

  function KindsOfMarkers(marks: string): (kinds: seq<Kind>)
    requires forall i :: 0 <= i < |marks| ==> marks[i] in "dsf"
    ensures |kinds| == |marks|
    decreases |marks|
  {
    if |marks| == 0 then [] else [MarkerKind(marks[0]).value] + KindsOfMarkers(marks[1..])
  }


  /** With N placeholders and N arguments, the output is the format string
      with each placeholder replaced, in order, by the text of its argument,
      and the placeholders ask for the kinds their markers name. */
  lemma {:induction false} Substitution(lits: seq<string>, marks: string, args: seq<Arg>, fmtDbl: Dbl -> string)
    requires |lits| == |marks| + 1 && |args| == |marks|
    requires forall i :: 0 <= i < |lits| ==> '%' !in lits[i]
    requires forall i :: 0 <= i < |marks| ==> marks[i] in "dsf"
    ensures MarkerKinds(Scan(Template(lits, marks))) == KindsOfMarkers(marks)
    ensures Emit(Scan(Template(lits, marks)), args, fmtDbl) == Filled(lits, RenderEach(args, fmtDbl))
    decreases |marks|
  {
    NoPercentVerbatim(lits[0], args, fmtDbl);
    if |marks| > 0 {
      var pair := ['%', marks[0]];
      var rest := Template(lits[1..], marks[1..]);
      Substitution(lits[1..], marks[1..], args[1..], fmtDbl);
      LonePlaceholder(marks[0], args, fmtDbl);
      assert pair[|pair| - 1] == marks[0];
      EmitConcat(pair, rest, args, fmtDbl);
      assert lits[0] == "" || lits[0][|lits[0]| - 1] != '%' by {
        if lits[0] != "" {
          assert lits[0][|lits[0]| - 1] in lits[0];
        }
      }
      EmitConcat(lits[0], pair + rest, args, fmtDbl);
    }
  }

  // ---------------------------------------------------------------------------
  // The loop

  /** The number of format characters the scan eats at position `i`. */
  function Width(fmt: string, i: nat): nat {
    if i < |fmt| && fmt[i] == '%' && i + 1 < |fmt| then 2 else 1
  }

  /** One turn of the loop: the first piece from position `i`, what it writes
      and what remains for the rest of the scan. */
  lemma LoopStep(fmt: string, i: nat, rest: seq<Arg>, fmtDbl: Dbl -> string)
    requires i < |fmt|
    requires Fits(MarkerKinds(Scan(fmt[i..])), rest)
    ensures i + Width(fmt, i) <= |fmt|
    ensures Scan(fmt[i..])[0] == if Width(fmt, i) == 2 then Pair(fmt[i + 1]) else Literal(fmt[i])
    ensures var p := Scan(fmt[i..])[0];
            var after := Scan(fmt[i + Width(fmt, i)..]);
            && |MarkerKinds(Scan(fmt[i..]))| == |PieceKinds(p)| + |MarkerKinds(after)|
            && Fits(MarkerKinds(after), rest[|PieceKinds(p)|..])
            && (p.Placeholder? ==> KindOf(rest[0]) == p.k)
            && Emit(Scan(fmt[i..]), rest, fmtDbl)
               == PieceText(p, rest, fmtDbl) + Emit(after, rest[|PieceKinds(p)|..], fmtDbl)
  {
    ScanAt(fmt, i);
    var p := Scan(fmt[i..])[0];
    var after := Scan(fmt[i + Width(fmt, i)..]);
    assert Scan(fmt[i..]) == [p] + after;
    EmitCons(p, after, rest, fmtDbl);
    FitsCons(PieceKinds(p), MarkerKinds(after), rest);
  }

  /** The loop's invariant at position `i`, after `consumed` arguments have
      been taken and `out` written: the output so far followed by what the
      rest of the scan writes with the remaining arguments is the whole
      output, and the remaining arguments fit the remaining placeholders. */
  predicate LoopInvariant(fmt: string, args: seq<Arg>, fmtDbl: Dbl -> string,
                          i: nat, consumed: nat, out: string)
  {
    && i <= |fmt| && consumed <= |args|
    && consumed + |MarkerKinds(Scan(fmt[i..]))| == |MarkerKinds(Scan(fmt))|
    && Fits(MarkerKinds(Scan(fmt[i..])), args[consumed..])
    && out + Emit(Scan(fmt[i..]), args[consumed..], fmtDbl) == Emit(Scan(fmt), args, fmtDbl)
  }

  /** Before the first turn, nothing is written and nothing is taken. */
  lemma LoopStart(fmt: string, args: seq<Arg>, fmtDbl: Dbl -> string)
    requires Fits(MarkerKinds(Scan(fmt)), args)
    ensures LoopInvariant(fmt, args, fmtDbl, 0, 0, "")
  {
    assert fmt[0..] == fmt && args[0..] == args;
  }

  /** After the last turn, the output is complete and every placeholder has
      taken its argument. */
  lemma LoopEnd(fmt: string, args: seq<Arg>, fmtDbl: Dbl -> string, consumed: nat, out: string)
    requires LoopInvariant(fmt, args, fmtDbl, |fmt|, consumed, out)
    ensures consumed == |MarkerKinds(Scan(fmt))|
    ensures out == Emit(Scan(fmt), args, fmtDbl)
  {
    assert fmt[|fmt|..] == "";
  }

  /** What one turn of the loop keeps: after writing piece `text`, moving
      `width` characters on and taking `read` arguments, the invariant holds
      at the new position. */
  lemma Advance(fmt: string, i: nat, args: seq<Arg>, consumed: nat, out: string,
                text: string, width: nat, read: nat, fmtDbl: Dbl -> string)
    requires LoopInvariant(fmt, args, fmtDbl, i, consumed, out) && i < |fmt|
    requires width == Width(fmt, i) && read == |PieceKinds(Scan(fmt[i..])[0])|
    requires text == PieceText(Scan(fmt[i..])[0], args[consumed..], fmtDbl)
    ensures LoopInvariant(fmt, args, fmtDbl, i + width, consumed + read, out + text)
  {
    var rest := args[consumed..];
    LoopStep(fmt, i, rest, fmtDbl);
    var later := Emit(Scan(fmt[i + width..]), rest[read..], fmtDbl);
    AppendAssoc(out, text, later);
    assert rest[read..] == args[consumed + read..];
  }

  /** One turn of the `for` loop of `cstyle_printf` at position `i`, with
      `consumed` arguments already taken from the `va_list`: the text it
      writes, how far it moves `i`, and how many arguments it takes. */
  method Turn(fmt: string, i: nat, args: seq<Arg>, consumed: nat, fmtDbl: Dbl -> string)
    returns (text: string, width: nat, read: nat)
    requires i < |fmt| && consumed <= |args|
    requires Fits(MarkerKinds(Scan(fmt[i..])), args[consumed..])
    ensures width == Width(fmt, i) && i + width <= |fmt|
    ensures read == |PieceKinds(Scan(fmt[i..])[0])| && consumed + read <= |args|
    ensures text == PieceText(Scan(fmt[i..])[0], args[consumed..], fmtDbl)
  {
    LoopStep(fmt, i, args[consumed..], fmtDbl);
    if fmt[i] == '%' && i + 1 < |fmt| {
      match fmt[i + 1] {
      case 'd' =>
        text := Decimal.Text(args[consumed].n as int);
        read := 1;
      case 's' =>
        text := args[consumed].s;
        read := 1;
      case 'f' =>
        text := fmtDbl(args[consumed].d);
        read := 1;
      case _ =>
        text := [fmt[i]];
        read := 0;
      }
      width := 2;
    } else {
      text := [fmt[i]];
      width, read := 1, 0;
    }
  }

  /** `cstyle_printf(fmt, ...)`: returns what it writes to `std::cout` and how
      many arguments it takes from the `va_list`. */
  method CStylePrintf(fmt: string, args: seq<Arg>, fmtDbl: Dbl -> string)
    returns (out: string, consumed: nat)
    requires Fits(MarkerKinds(Scan(fmt)), args)
    ensures consumed == |MarkerKinds(Scan(fmt))|
    ensures out == Emit(Scan(fmt), args, fmtDbl)
  {
    out, consumed := "", 0;
    var i := 0;
    LoopStart(fmt, args, fmtDbl);
    while i < |fmt|
      invariant LoopInvariant(fmt, args, fmtDbl, i, consumed, out)
      decreases |fmt| - i
    {
      var text, width, read := Turn(fmt, i, args, consumed, fmtDbl);
      Advance(fmt, i, args, consumed, out, text, width, read, fmtDbl);
      out := out + text;
      consumed := consumed + read;
      i := i + width;
    }
    LoopEnd(fmt, args, fmtDbl, consumed, out);
  }
}
