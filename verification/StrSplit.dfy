// strsplit of Utility.cpp: leftmost, non-overlapping pieces, an empty last piece dropped.
module StrSplit {
  import opened Bytes

  predicate MatchAt(s: string, sep: string, i: nat) {
    i + |sep| <= |s| && s[i..i + |sep|] == sep
  }

  /** std::string::find from `from` on: the least match, or None. */
  function Find(s: string, sep: string, from: nat): (r: Option<nat>)
    ensures r.Some? ==> from <= r.value <= |s| - |sep| && MatchAt(s, sep, r.value)
    ensures r.Some? ==> forall i :: from <= i < r.value ==> !MatchAt(s, sep, i)
    ensures r.None? ==> forall i :: from <= i ==> !MatchAt(s, sep, i)
    decreases |s| - from
  {
    if from + |sep| > |s| then None
    else if MatchAt(s, sep, from) then Some(from)
    else Find(s, sep, from + 1)
  }

  /** The separator does not occur. */
  predicate Free(s: string, sep: string) {
    Find(s, sep, 0).None?
  }

  function Split(s: string, sep: string): seq<string>
    requires sep != []
    decreases |s|
  {
    match Find(s, sep, 0)
    case None => if s == [] then [] else [s]
    case Some(i) => [s[..i]] + Split(s[i + |sep|..], sep)
  }

  /** What is left after the last match. */
  function Tail(s: string, sep: string): string
    requires sep != []
    decreases |s|
  {
    match Find(s, sep, 0)
    case None => s
    case Some(i) => Tail(s[i + |sep|..], sep)
  }

  // ---------------------------------------------------------------------------------
  // The loop
  // ---------------------------------------------------------------------------------

  class StringVector {
    var items: seq<string>

    constructor ()
      ensures items == []
    {
      items := [];
    }

    method PushBack(s: string)
      modifies this
      ensures items == old(items) + [s]
    {
      items := items + [s];
    }

    method Clear()
      modifies this
      ensures items == []
    {
      items := [];
    }
  }

  /** strsplit: the pieces are appended to what the caller's vector holds. */
  method SplitInto(s: string, separator: string, v: StringVector)
    requires separator != []
    modifies v
    ensures v.items == old(v.items) + Split(s, separator)
  {
    hide Find, Split;
    var pos1 := 0;
    var pos2 := Find(s, separator, 0);
    assert s[0..] == s;
    while pos2.Some?
      invariant 0 <= pos1 <= |s| && pos2 == Find(s, separator, pos1)
      invariant v.items + Split(s[pos1..], separator) == old(v.items) + Split(s, separator)
      decreases |s| - pos1
    {
      SplitStep(s, separator, pos1);
      v.PushBack(s[pos1..pos2.value]);
      pos1 := pos2.value + |separator|;
      pos2 := Find(s, separator, pos1);
    }
    SplitStep(s, separator, pos1);
    if pos1 != |s| {
      v.PushBack(s[pos1..]);
    }
  }

  lemma SplitStep(s: string, sep: string, pos1: nat)
    requires sep != [] && pos1 <= |s|
    ensures var r := Find(s, sep, pos1);
            Split(s[pos1..], sep) ==
              if r.Some? then [s[pos1..r.value]] + Split(s[r.value + |sep|..], sep)
              else if pos1 == |s| then [] else [s[pos1..]]
  {
    hide Find, MatchAt, Split;
    FindFrom(s, sep, pos1);
    var r := Find(s, sep, pos1);
    var rest := s[pos1..];
    SplitUnfolds(rest, sep);
    if r.Some? {
      assert rest[..r.value - pos1] == s[pos1..r.value];
      assert rest[r.value - pos1 + |sep|..] == s[r.value + |sep|..];
    }
  }

  lemma SplitUnfolds(s: string, sep: string)
    requires sep != []
    ensures var f := Find(s, sep, 0);
            Split(s, sep) ==
              if f.Some? then [s[..f.value]] + Split(s[f.value + |sep|..], sep) else if s == [] then [] else [s]
  {
    hide Find, MatchAt;
  }

  /** Searching from an index is searching what starts there. */
  lemma FindFrom(s: string, sep: string, from: nat)
    requires from <= |s|
    ensures Find(s, sep, from).None? <==> Find(s[from..], sep, 0).None?
    ensures Find(s, sep, from).Some? ==> Find(s, sep, from).value == from + Find(s[from..], sep, 0).value
  {
    hide Find;
    MatchesShift(s, sep, from);
    var a, b := Find(s, sep, from), Find(s[from..], sep, 0);
    if a.Some? {
      assert MatchAt(s[from..], sep, a.value - from);
    }
    if b.Some? {
      assert MatchAt(s, sep, from + b.value);
    }
  }

  lemma MatchesShift(s: string, sep: string, from: nat)
    requires from <= |s|
    ensures forall i: nat :: MatchAt(s[from..], sep, i) <==> MatchAt(s, sep, from + i)
  {
    forall i: nat ensures MatchAt(s[from..], sep, i) <==> MatchAt(s, sep, from + i) {
      if from + i + |sep| <= |s| {
        assert s[from..][i..i + |sep|] == s[from + i..from + i + |sep|];
      }
    }
  }

  // ---------------------------------------------------------------------------------
  // Reconstruction
  // ---------------------------------------------------------------------------------

  function Join(parts: seq<string>, sep: string): string {
    if parts == [] then []
    else if |parts| == 1 then parts[0]
    else parts[0] + sep + Join(parts[1..], sep)
  }

  /** Every part followed by the separator. */
  function Terminated(parts: seq<string>, sep: string): string {
    if parts == [] then [] else parts[0] + sep + Terminated(parts[1..], sep)
  }

  /** Splitting loses nothing: the pieces, which hold no separator, give the string back. */
  lemma {:induction false} Reconstructs(s: string, sep: string)
    requires sep != []
    ensures forall p :: p in Split(s, sep) ==> Free(p, sep)
    ensures Tail(s, sep) == [] ==> Terminated(Split(s, sep), sep) == s
    ensures Tail(s, sep) != [] ==> Split(s, sep) != [] && Join(Split(s, sep), sep) == s
    decreases |s|
  {
    hide Find, MatchAt, Split, Tail, Join, Terminated;
    var f := Find(s, sep, 0);
    SplitUnfolds(s, sep);
    TailUnfolds(s, sep);
    if f.Some? {
      var i := f.value;
      var rest := s[i + |sep|..];
      Reconstructs(rest, sep);
      PrefixFree(s, sep, i);
      assert s == s[..i] + sep + rest by { CutAt(s, sep, i); }
      JoinCons(s[..i], Split(rest, sep), sep);
    } else if s == [] {
      assert Terminated([], sep) == [] by { JoinNone(s, sep); }
    } else {
      JoinNone(s, sep);
    }
  }

  lemma TailUnfolds(s: string, sep: string)
    requires sep != []
    ensures var f := Find(s, sep, 0);
            Tail(s, sep) == if f.Some? then Tail(s[f.value + |sep|..], sep) else s
  {
    hide Find, MatchAt;
  }

  lemma CutAt(s: string, sep: string, i: nat)
    requires MatchAt(s, sep, i)
    ensures s == s[..i] + sep + s[i + |sep|..]
  {
    assert s == s[..i] + s[i..i + |sep|] + s[i + |sep|..];
  }

  lemma JoinCons(p: string, rest: seq<string>, sep: string)
    ensures Terminated([p] + rest, sep) == p + sep + Terminated(rest, sep)
    ensures rest != [] ==> Join([p] + rest, sep) == p + sep + Join(rest, sep)
  {
    assert ([p] + rest)[1..] == rest;
  }

  lemma JoinNone(s: string, sep: string)
    ensures Terminated([], sep) == [] && Join([s], sep) == s
  {
  }

  /** What stands before the first match holds none. */
  lemma PrefixFree(s: string, sep: string, i: nat)
    requires sep != [] && Find(s, sep, 0) == Some(i)
    ensures Free(s[..i], sep)
  {
    hide Find;
    forall k: nat | MatchAt(s[..i], sep, k) ensures MatchAt(s, sep, k) && k < i {
      assert s[..i][k..k + |sep|] == s[k..k + |sep|];
    }
  }

  // ---------------------------------------------------------------------------------
  // The inverse law
  // ---------------------------------------------------------------------------------

  /** The first separator in part + separator is the one that was put there. */
  predicate Clean(part: string, sep: string) {
    Find(part + sep, sep, 0) == Some(|part|)
  }

  predicate Splittable(parts: seq<string>, sep: string)
    requires parts != []
  {
    && (forall i :: 0 <= i < |parts| - 1 ==> Clean(parts[i], sep))
    && parts[|parts| - 1] != [] && Free(parts[|parts| - 1], sep)
  }

  /** What follows part + separator has no say in where its first separator is. */
  lemma FirstMatchLocal(part: string, sep: string, rest: string)
    ensures Find(part + sep + rest, sep, 0) == Find(part + sep, sep, 0)
    ensures Find(part + sep, sep, 0).Some? && Find(part + sep, sep, 0).value <= |part|
  {
    hide Find;
    var long, short := part + sep + rest, part + sep;
    assert short[|part|..|part| + |sep|] == sep;
    assert MatchAt(short, sep, |part|);
    forall i | 0 <= i <= |part| ensures MatchAt(long, sep, i) <==> MatchAt(short, sep, i) {
      assert long[i..i + |sep|] == short[i..i + |sep|];
    }
    var a, b := Find(long, sep, 0), Find(short, sep, 0);
    assert MatchAt(long, sep, b.value);
    assert a.Some? && a.value <= b.value;
    assert MatchAt(short, sep, a.value);
  }

  /** Splitting after a clean part peels it off; after any other part it cuts too early. */
  lemma SplitFirst(p: string, sep: string, rest: string)
    requires sep != []
    ensures Clean(p, sep) ==> Split(p + sep + rest, sep) == [p] + Split(rest, sep)
    ensures !Clean(p, sep) ==> Split(p + sep + rest, sep) != [] && |Split(p + sep + rest, sep)[0]| < |p|
  {
    hide Find;
    FirstMatchLocal(p, sep, rest);
    var s := p + sep + rest;
    if Clean(p, sep) {
      assert s[..|p|] == p && s[|p| + |sep|..] == rest;
    }
  }

  /** strsplit inverts join exactly when every part but the last is clean and the last is non-empty and free. */
  lemma {:induction false} SplitInvertsJoin(parts: seq<string>, sep: string)
    requires sep != [] && parts != []
    ensures Split(Join(parts, sep), sep) == parts <==> Splittable(parts, sep)
    decreases |parts|
  {
    if |parts| == 1 {
      SplitWhole(parts[0], sep);
      assert parts == [parts[0]];
    } else {
      hide Find, Split, Splittable, Clean;
      var p, tail := parts[0], parts[1..];
      var rest := Join(tail, sep);
      assert Join(parts, sep) == p + sep + rest;
      SplitFirst(p, sep, rest);
      SplitInvertsJoin(tail, sep);
      SplittableCons(parts, sep);
      HeadAndTail(Split(Join(parts, sep), sep), p, Split(rest, sep), parts);
    }
  }

  lemma HeadAndTail(pieces: seq<string>, p: string, rest: seq<string>, parts: seq<string>)
    requires parts != [] && parts[0] == p
    ensures pieces == [p] + rest ==> (pieces == parts <==> rest == parts[1..])
    ensures pieces != [] && |pieces[0]| < |p| ==> pieces != parts
  {
    assert parts == [p] + parts[1..];
    assert ([p] + rest)[1..] == rest;
  }

  lemma SplitWhole(s: string, sep: string)
    requires sep != []
    ensures Split(s, sep) == [s] <==> s != [] && Free(s, sep)
  {
    hide Find;
    var f := Find(s, sep, 0);
    if f.Some? {
      assert |Split(s, sep)[0]| < |s|;
    }
  }

  lemma SplittableCons(parts: seq<string>, sep: string)
    requires |parts| > 1
    ensures Splittable(parts, sep) <==> Clean(parts[0], sep) && Splittable(parts[1..], sep)
  {
    hide Clean, Free;
    var tail := parts[1..];
    if Clean(parts[0], sep) && Splittable(tail, sep) {
      forall i | 0 <= i < |parts| - 1 ensures Clean(parts[i], sep) {
        if i > 0 {
          assert parts[i] == tail[i - 1];
        }
      }
    }
    if Splittable(parts, sep) {
      forall i | 0 <= i < |tail| - 1 ensures Clean(tail[i], sep) {
        assert tail[i] == parts[i + 1];
      }
    }
  }

  // ---------------------------------------------------------------------------------
  // Composition
  // ---------------------------------------------------------------------------------

  /** A first match is still the first when more is appended. */
  lemma FindInConcat(x: string, y: string, sep: string)
    requires Find(x, sep, 0).Some?
    ensures Find(x + y, sep, 0) == Find(x, sep, 0)
  {
    hide Find;
    var i := Find(x, sep, 0).value;
    var rest := x[i + |sep|..];
    CutAt(x, sep, i);
    FirstMatchLocal(x[..i], sep, rest);
    FirstMatchLocal(x[..i], sep, rest + y);
    assert x + y == x[..i] + sep + (rest + y);
  }

  /** When the scan of x leaves nothing over, splitting goes on as if y stood alone. */
  lemma {:induction false} SplitComposes(x: string, y: string, sep: string)
    requires sep != [] && Tail(x, sep) == []
    ensures Split(x + y, sep) == Split(x, sep) + Split(y, sep)
    decreases |x|
  {
    hide Find, MatchAt, Split, Tail;
    var f := Find(x, sep, 0);
    SplitUnfolds(x, sep);
    TailUnfolds(x, sep);
    if f.None? {
      assert x + y == y;
    } else {
      var i := f.value;
      var rest := x[i + |sep|..];
      FindInConcat(x, y, sep);
      SplitUnfolds(x + y, sep);
      assert (x + y)[..i] == x[..i] && (x + y)[i + |sep|..] == rest + y;
      SplitComposes(rest, y, sep);
      assert [x[..i]] + (Split(rest, sep) + Split(y, sep)) == ([x[..i]] + Split(rest, sep)) + Split(y, sep);
    }
  }

  /** One-character separators leave nothing over in a string that ends with one. */
  lemma {:induction false} EndsClean(x: string, c: char)
    requires x != [] && x[|x| - 1] == c
    ensures Tail(x, [c]) == []
    decreases |x|
  {
    hide Find;
    assert x[|x| - 1..|x|] == [c];
    assert MatchAt(x, [c], |x| - 1);
    var i := Find(x, [c], 0).value;
    var rest := x[i + 1..];
    if rest != [] {
      EndsClean(rest, c);
    } else {
      assert Find([], [c], 0).None?;
    }
  }
}
