/**
  The statement templater of `execQuery` / `execNonQuery`: for each argument in
  turn, left to right, the first `?` still present in the statement text is
  replaced by that argument, as literal text, without escaping.

  `Substitute` is what the loop computes; `Fill` is an independent one-pass
  reading of a template (the j-th marker receives the j-th argument). The two
  agree whenever no argument except possibly the last contains a marker: a
  marker inside an earlier argument would itself be replaced by a later one.
 */
module Templater {

  const MARKER: char := '?'

  /** Java's `replaceFirst` treats `$` and `\` in the replacement as group
      references and escapes; without them the replacement is taken literally. */
  predicate NoRegexEscapes(s: string)
  {
    '$' !in s && '\\' !in s
  }

  /** No argument before the last contains a marker. */
  predicate NoStrayMarkers(args: seq<string>)
  {
    forall i :: 0 <= i < |args| - 1 ==> MARKER !in args[i]
  }

  function CountMarkers(s: string): nat
  {
    if s == [] then 0
    else (if s[0] == MARKER then 1 else 0) + CountMarkers(s[1..])
  }

  /** `s.replaceFirst("[?]", arg)` for an `arg` without `$` or `\`. */
  function ReplaceFirst(s: string, arg: string): string
  {
    if s == [] then []
    else if s[0] == MARKER then arg + s[1..]
    else [s[0]] + ReplaceFirst(s[1..], arg)
  }

  /** The result of the substitution loop: one `ReplaceFirst` per argument, in order. */
  function Substitute(template: string, args: seq<string>): string
    decreases |args|
  {
    if args == [] then template
    else Substitute(ReplaceFirst(template, args[0]), args[1..])
  }

  /** Reference reading of a template: a single left-to-right scan in which the
      j-th marker is replaced by `args[j]`; markers past the last argument are
      copied unchanged and surplus arguments are never used. */
  function Fill(template: string, args: seq<string>): string
  {
    if template == [] then []
    else if template[0] == MARKER && args != [] then args[0] + Fill(template[1..], args[1..])
    else [template[0]] + Fill(template[1..], args)
  }

  /** The substitution loop of `execQuery` / `execNonQuery`. */
  method BuildStatement(sql: string, selectionArgs: seq<string>) returns (statement: string)
    requires forall i :: 0 <= i < |selectionArgs| ==> NoRegexEscapes(selectionArgs[i])
    ensures statement == Substitute(sql, selectionArgs)
    ensures NoStrayMarkers(selectionArgs) ==> statement == Fill(sql, selectionArgs)
  {
    statement := sql;
    var i := 0;
    while i < |selectionArgs|
      invariant 0 <= i <= |selectionArgs|
      invariant Substitute(statement, selectionArgs[i..]) == Substitute(sql, selectionArgs)
    {
      assert selectionArgs[i..][0] == selectionArgs[i];
      assert selectionArgs[i..][1..] == selectionArgs[i + 1..];
      statement := ReplaceFirst(statement, selectionArgs[i]);
      i := i + 1;
    }
    assert selectionArgs[i..] == [];
    if NoStrayMarkers(selectionArgs) {
      SubstituteIsFill(sql, selectionArgs);
    }
  }

  // ---------------------------------------------------------------------------
  // ReplaceFirst

  /** Without a marker, `ReplaceFirst` changes nothing. */
  lemma {:induction false} ReplaceFirstNoMarker(s: string, arg: string)
    requires MARKER !in s
    ensures ReplaceFirst(s, arg) == s
  {
    if s != [] {
      assert MARKER !in s[1..];
      ReplaceFirstNoMarker(s[1..], arg);
    }
  }

  /** `ReplaceFirst` replaces exactly the first marker and keeps everything around it. */
  lemma {:induction false} ReplaceFirstAtFirstMarker(p: string, s: string, arg: string)
    requires MARKER !in p
    ensures ReplaceFirst(p + [MARKER] + s, arg) == p + arg + s
  {
    if p != [] {
      assert (p + [MARKER] + s)[1..] == p[1..] + [MARKER] + s;
      assert MARKER !in p[1..];
      ReplaceFirstAtFirstMarker(p[1..], s, arg);
      assert p == [p[0]] + p[1..];
    } else {
      assert (p + [MARKER] + s)[1..] == s;
    }
  }

  // ---------------------------------------------------------------------------
  // Fill

  lemma {:induction false} FillWithoutArgs(t: string)
    ensures Fill(t, []) == t
  {
    if t != [] {
      FillWithoutArgs(t[1..]);
    }
  }

  /** Text without markers passes through `Fill` unchanged and consumes no argument. */
  lemma {:induction false} FillMarkerFreePrefix(p: string, s: string, args: seq<string>)
    requires MARKER !in p
    ensures Fill(p + s, args) == p + Fill(s, args)
  {
    if p != [] {
      assert (p + s)[0] == p[0];
      assert (p + s)[1..] == p[1..] + s;
      assert MARKER !in p[1..];
      FillMarkerFreePrefix(p[1..], s, args);
      assert p == [p[0]] + p[1..];
    } else {
      assert p + s == s;
    }
  }

  /** The first marker after marker-free text receives the first argument. */
  lemma FillAtFirstMarker(p: string, a: string, s: string, rest: seq<string>)
    requires MARKER !in p
    ensures Fill(p + [MARKER] + s, [a] + rest) == p + a + Fill(s, rest)
  {
    FillMarkerFreePrefix(p, [MARKER] + s, [a] + rest);
    assert ([MARKER] + s)[1..] == s;
    assert ([a] + rest)[1..] == rest;
    assert p + [MARKER] + s == p + ([MARKER] + s);
  }

  /** One step of the loop agrees with the one-pass reading, unless the
      argument brings in a marker that a later argument would consume. */
  lemma {:induction false} FillAfterReplaceFirst(t: string, a: string, rest: seq<string>)
    requires MARKER !in a || rest == []
    ensures Fill(ReplaceFirst(t, a), rest) == Fill(t, [a] + rest)
  {
    assert ([a] + rest)[0] == a && ([a] + rest)[1..] == rest;
    if t == [] {
    } else if t[0] == MARKER {
      if rest == [] {
        FillWithoutArgs(a + t[1..]);
        FillWithoutArgs(t[1..]);
      } else {
        FillMarkerFreePrefix(a, t[1..], rest);
      }
    } else {
      FillAfterReplaceFirst(t[1..], a, rest);
      assert ([t[0]] + ReplaceFirst(t[1..], a))[0] == t[0];
      assert ([t[0]] + ReplaceFirst(t[1..], a))[1..] == ReplaceFirst(t[1..], a);
    }
  }

  /** The loop fills markers left to right: it agrees with `Fill`. */
  lemma {:induction false} SubstituteIsFill(t: string, args: seq<string>)
    requires NoStrayMarkers(args)
    ensures Substitute(t, args) == Fill(t, args)
    decreases |args|
  {
    if args == [] {
      FillWithoutArgs(t);
    } else {
      assert NoStrayMarkers(args[1..]) by {
        forall i | 0 <= i < |args[1..]| - 1
          ensures MARKER !in args[1..][i]
        {
          assert args[1..][i] == args[i + 1];
        }
      }
      SubstituteIsFill(ReplaceFirst(t, args[0]), args[1..]);
      FillAfterReplaceFirst(t, args[0], args[1..]);
      assert [args[0]] + args[1..] == args;
    }
  }

  // ---------------------------------------------------------------------------
  // What is left of the markers

  lemma {:induction false} CountMarkersAppend(p: string, s: string)
    ensures CountMarkers(p + s) == CountMarkers(p) + CountMarkers(s)
  {
    if p != [] {
      assert (p + s)[0] == p[0];
      assert (p + s)[1..] == p[1..] + s;
      CountMarkersAppend(p[1..], s);
    } else {
      assert p + s == s;
    }
  }

  lemma {:induction false} CountMarkersZero(s: string)
    ensures CountMarkers(s) == 0 <==> MARKER !in s
  {
    if s != [] {
      CountMarkersZero(s[1..]);
      assert s == [s[0]] + s[1..];
    }
  }

  /** With marker-free arguments, each argument resolves one marker while markers
      remain: as many arguments as markers leave none, fewer leave the difference. */
  lemma {:induction false} FillResolvesMarkers(t: string, args: seq<string>)
    requires forall i :: 0 <= i < |args| ==> MARKER !in args[i]
    ensures CountMarkers(Fill(t, args)) ==
      if CountMarkers(t) <= |args| then 0 else CountMarkers(t) - |args|
  {
    if t == [] {
    } else if t[0] == MARKER && args != [] {
      assert forall i :: 0 <= i < |args[1..]| ==> args[1..][i] == args[i + 1];
      FillResolvesMarkers(t[1..], args[1..]);
      CountMarkersZero(args[0]);
      CountMarkersAppend(args[0], Fill(t[1..], args[1..]));
    } else {
      FillResolvesMarkers(t[1..], args);
      CountMarkersAppend([t[0]], Fill(t[1..], args));
      if args == [] {
        FillWithoutArgs(t[1..]);
      }
    }
  }

  /** Once the arguments run out, the rest of the template (its markers included)
      is copied unchanged: `j` is the point where the last argument has been used. */
  lemma {:induction false} FillLeavesTailUnresolved(t: string, args: seq<string>, j: nat)
    requires j <= |t| && CountMarkers(t[..j]) == |args|
    ensures Fill(t, args) == Fill(t[..j], args) + t[j..]
  {
    if j == 0 {
      assert args == [];
      FillWithoutArgs(t);
    } else {
      assert t[..j][0] == t[0];
      assert t[..j][1..] == t[1..][..j - 1];
      assert t[1..][j - 1..] == t[j..];
      if t[0] == MARKER && args != [] {
        FillLeavesTailUnresolved(t[1..], args[1..], j - 1);
      } else {
        FillLeavesTailUnresolved(t[1..], args, j - 1);
      }
    }
  }

  /** Arguments beyond the number of markers are never used. */
  lemma {:induction false} FillIgnoresSurplus(t: string, args: seq<string>)
    requires CountMarkers(t) <= |args|
    ensures Fill(t, args) == Fill(t, args[..CountMarkers(t)])
  {
    if t == [] {
    } else if t[0] == MARKER {
      var n := CountMarkers(t);
      assert args[..n][0] == args[0];
      assert args[..n][1..] == args[1..][..n - 1];
      FillIgnoresSurplus(t[1..], args[1..]);
    } else {
      FillIgnoresSurplus(t[1..], args);
    }
  }

  /** With exactly as many marker-free arguments as markers, the loop leaves no
      marker and its result is the template filled left to right. */
  lemma SubstituteExactArgs(t: string, args: seq<string>)
    requires forall i :: 0 <= i < |args| ==> MARKER !in args[i]
    requires CountMarkers(t) == |args|
    ensures Substitute(t, args) == Fill(t, args)
    ensures MARKER !in Substitute(t, args)
  {
    SubstituteIsFill(t, args);
    FillResolvesMarkers(t, args);
    CountMarkersZero(Fill(t, args));
  }
}
