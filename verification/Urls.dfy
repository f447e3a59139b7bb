// How the WSNet constructor takes a URL apart: split at '/', take the third piece, split it at ':'.
module Urls {
  import opened Bytes
  import opened StrSplit

  // What the constructor does with a URL: it leaves the client unset, creates it for a host and
  // the text of a port, or indexes a vector beyond its end.
  datatype Target = NoClient | Client(host: string, port: string) | IndexOutOfRange

  /** The constructor's branches over the two splits. */
  function TargetOf(url: string): Target {
    var vec := Split(url, "/");
    if |vec| < 2 then NoClient
    else if |vec| < 3 then IndexOutOfRange
    else
      var parts := Split(vec[2], ":");
      if |parts| < 2 then IndexOutOfRange else Client(parts[0], parts[1])
  }

  /** The constructor itself, refilling one vector. */
  method Parse(url: string) returns (t: Target)
    ensures t == TargetOf(url)
  {
    hide Split;
    var vec := new StringVector();
    SplitInto(url, "/", vec);
    if |vec.items| >= 2 {
      if |vec.items| <= 2 {
        return IndexOutOfRange;
      }
      var addr := vec.items[2];
      vec.Clear();
      SplitInto(addr, ":", vec);
      if |vec.items| <= 1 {
        return IndexOutOfRange;
      }
      t := Client(vec.items[0], vec.items[1]);
    } else {
      t := NoClient;
    }
  }

  // ---------------------------------------------------------------------------------
  // One-character separators
  // ---------------------------------------------------------------------------------

  /** A one-character separator is met exactly where the character is. */
  lemma FindChar(p: string, c: char, rest: string)
    requires c !in p
    ensures Find(p, [c], 0).None?
    ensures Find(p + [c] + rest, [c], 0) == Some(|p|)
  {
    hide Find;
    var s := p + [c] + rest;
    forall k: nat | k < |p| ensures !MatchAt(p, [c], k) {
      assert p[k..k + 1] == [p[k]];
    }
    var g := Find(s, [c], 0);
    assert s[|p|..|p| + 1] == [c] && MatchAt(s, [c], |p|);
    assert g.Some? && g.value <= |p|;
    assert s[g.value..g.value + 1][0] == c;
  }

  lemma SplitChar(p: string, c: char, rest: string)
    requires c !in p
    ensures Split(p + [c] + rest, [c]) == [p] + Split(rest, [c])
  {
    hide Find, Split;
    var s := p + [c] + rest;
    FindChar(p, c, rest);
    SplitUnfolds(s, [c]);
    assert s[..|p|] == p && s[|p| + 1..] == rest;
  }

  lemma SplitLast(p: string, c: char)
    requires c !in p
    ensures Split(p, [c]) == if p == [] then [] else [p]
  {
    hide Find, Split;
    FindChar(p, c, []);
    SplitUnfolds(p, [c]);
  }

  /** The first piece, and what follows it, of a string that is split into something. */
  lemma FirstPiece(s: string, c: char) returns (p: string, more: bool, rest: string)
    requires Split(s, [c]) != []
    ensures c !in p && s == p + (if more then [c] + rest else [])
    ensures Split(s, [c]) == if more then [p] + Split(rest, [c]) else [p]
    ensures !more ==> p != []
  {
    hide Find, Split;
    SplitUnfolds(s, [c]);
    var f := Find(s, [c], 0);
    if f.Some? {
      p, more, rest := s[..f.value], true, s[f.value + 1..];
      CutAt(s, [c], f.value);
      assert s == p + ([c] + rest);
      forall i | 0 <= i < |p| ensures p[i] != c {
        assert s[i..i + 1] == [s[i]];
        assert !MatchAt(s, [c], i);
      }
    } else {
      p, more, rest := s, false, [];
      forall i | 0 <= i < |p| ensures p[i] != c {
        assert s[i..i + 1] == [s[i]];
        assert !MatchAt(s, [c], i);
      }
      assert s == p + [];
    }
  }

  // ---------------------------------------------------------------------------------
  // Which URLs reach which host and port
  // ---------------------------------------------------------------------------------

  /** Either nothing, or the separator and anything after it. */
  predicate Trailing(s: string, c: char) {
    s == [] || s[0] == c
  }

  /**
   * The shape the constructor expects: two '/'-free pieces, then host, ':' and port, each
   * followed by a '/', with anything after a second ':' or a third '/' ignored.
   */
  predicate Shaped(url: string, a: string, b: string, host: string, port: string, colons: string, path: string) {
    && url == a + "/" + (b + "/" + ((host + ":" + (port + colons)) + path))
    && '/' !in a && '/' !in b
    && '/' !in host && ':' !in host
    && '/' !in port && ':' !in port
    && '/' !in colons && Trailing(colons, ':') && Trailing(path, '/')
    && (port != [] || colons != [])
  }

  ghost predicate HasShape(url: string, host: string, port: string) {
    exists a, b, colons, path :: Shaped(url, a, b, host, port, colons, path)
  }

  /** Splitting a piece and a trailing part: the piece comes first. */
  lemma SplitTrailing(p: string, c: char, rest: string)
    requires c !in p && Trailing(rest, c) && (p != [] || rest != [])
    ensures Split(p + rest, [c]) != [] && Split(p + rest, [c])[0] == p
  {
    hide Split;
    if rest == [] {
      SplitLast(p, c);
      assert p + rest == p;
    } else {
      assert p + rest == p + [c] + rest[1..];
      SplitChar(p, c, rest[1..]);
    }
  }

  /** A URL of the expected shape leads to its host and port. */
  lemma ShapedParses(url: string, a: string, b: string, host: string, port: string, colons: string, path: string)
    requires Shaped(url, a, b, host, port, colons, path)
    ensures TargetOf(url) == Client(host, port)
  {
    hide Split;
    var addr := host + ":" + (port + colons);
    SplitChar(a, '/', b + "/" + (addr + path));
    SplitChar(b, '/', addr + path);
    assert url == a + "/" + (b + "/" + (addr + path));
    assert '/' !in addr && addr != [] by {
      assert addr[|host|] == ':';
      forall x | x in addr ensures x != '/' { }
    }
    SplitTrailing(addr, '/', path);
    SplitChar(host, ':', port + colons);
    SplitTrailing(port, ':', colons);
    var vec := Split(url, "/");
    assert vec == [a] + ([b] + Split(addr + path, "/"));
    assert vec[2] == Split(addr + path, "/")[0];
  }

  lemma ThirdPiece(url: string) returns (a: string, b: string, addr: string, path: string)
    requires |Split(url, "/")| > 2
    ensures url == a + "/" + (b + "/" + (addr + path))
    ensures '/' !in a && '/' !in b && '/' !in addr && Trailing(path, '/') && addr + path != []
    ensures Split(url, "/")[2] == addr
  {
    hide Split;
    var more1, r1, more2, r2, more3, r3;
    a, more1, r1 := FirstPiece(url, '/');
    b, more2, r2 := FirstPiece(r1, '/');
    addr, more3, r3 := FirstPiece(r2, '/');
    path := if more3 then "/" + r3 else "";
  }

  lemma SecondPiece(addr: string) returns (h: string, p: string, colons: string)
    requires |Split(addr, ":")| > 1
    ensures addr == h + ":" + (p + colons)
    ensures ':' !in h && ':' !in p && Trailing(colons, ':') && (p != [] || colons != [])
    ensures Split(addr, ":")[0] == h && Split(addr, ":")[1] == p
  {
    hide Split;
    var more1, r1, more2, r2;
    h, more1, r1 := FirstPiece(addr, ':');
    p, more2, r2 := FirstPiece(r1, ':');
    colons := if more2 then ":" + r2 else "";
  }

  /** Any URL that leads to a host and port has the expected shape. */
  lemma ParsedIsShaped(url: string, host: string, port: string)
    requires TargetOf(url) == Client(host, port)
    ensures HasShape(url, host, port)
  {
    hide Split;
    var a, b, addr, path := ThirdPiece(url);
    var h, p, colons := SecondPiece(addr);
    FreeParts(h, p, colons, addr);
    assert Shaped(url, a, b, host, port, colons, path);
  }

  lemma FreeParts(h: string, p: string, colons: string, addr: string)
    requires addr == h + ":" + (p + colons) && '/' !in addr
    ensures '/' !in h && '/' !in p && '/' !in colons
  {
    assert forall x :: x in h || x in p || x in colons ==> x in addr;
  }

  /** The constructor reaches host and port exactly for the URLs of the expected shape. */
  lemma ParseExact(url: string, host: string, port: string)
    ensures TargetOf(url) == Client(host, port) <==> HasShape(url, host, port)
  {
    hide TargetOf, Shaped;
    if TargetOf(url) == Client(host, port) {
      ParsedIsShaped(url, host, port);
    } else if HasShape(url, host, port) {
      var a, b, colons, path :| Shaped(url, a, b, host, port, colons, path);
      ShapedParses(url, a, b, host, port, colons, path);
    }
  }

  /** The ordinary case: scheme://host:port, with or without a path. */
  lemma OrdinaryUrl(scheme: string, host: string, port: string, path: string)
    requires '/' !in scheme && '/' !in host && ':' !in host
    requires port != [] && '/' !in port && ':' !in port && Trailing(path, '/')
    ensures TargetOf(scheme + "://" + host + ":" + port + path) == Client(host, port)
  {
    var url := scheme + "://" + host + ":" + port + path;
    var a := scheme + ":";
    assert url == a + "/" + ("" + "/" + ((host + ":" + (port + "")) + path));
    ShapedParses(url, a, "", host, port, "", path);
  }

  // ---------------------------------------------------------------------------------
  // Which URLs leave the client unset, and which are indexed past the end
  // ---------------------------------------------------------------------------------

  /** Splitting at c gives fewer than two pieces: no c stands before the last character. */
  predicate LacksSecond(s: string, c: char) {
    s == [] || c !in s[..|s| - 1]
  }

  lemma FewPieces(s: string, c: char)
    ensures |Split(s, [c])| < 2 <==> LacksSecond(s, c)
  {
    hide Split;
    if Split(s, [c]) == [] {
      SplitUnfolds(s, [c]);
    } else {
      var p, more, rest := FirstPiece(s, c);
      if !more {
        assert s == p;
      } else if rest == [] {
        SplitLast([], c);
        assert s[..|s| - 1] == p;
      } else {
        SplitUnfolds(rest, [c]);
        assert s[..|s| - 1][|p|] == c;
      }
    }
  }

  /** The client stays unset exactly when no '/' stands before the last character. */
  lemma NoClientExact(url: string)
    ensures TargetOf(url) == NoClient <==> LacksSecond(url, '/')
  {
    hide Split, LacksSecond;
    FewPieces(url, '/');
  }

  /** Exactly two pieces: one '/' with something after it, which may end in a second '/'. */
  predicate TwoPieceUrl(url: string, a: string, b: string, slash: string) {
    && url == a + "/" + (b + slash) && '/' !in a && '/' !in b
    && (slash == "" || slash == "/") && b + slash != ""
  }

  /** At least three pieces, of which the third has no ':' before its last character. */
  predicate PortlessUrl(url: string, a: string, b: string, addr: string, path: string) {
    && url == a + "/" + (b + "/" + (addr + path)) && '/' !in a && '/' !in b && '/' !in addr
    && Trailing(path, '/') && addr + path != "" && LacksSecond(addr, ':')
  }

  ghost predicate HasTwoPieces(url: string) {
    exists a, b, slash :: TwoPieceUrl(url, a, b, slash)
  }

  ghost predicate HasNoPort(url: string) {
    exists a, b, addr, path :: PortlessUrl(url, a, b, addr, path)
  }

  lemma TwoPiecesOutOfRange(url: string, a: string, b: string, slash: string)
    requires TwoPieceUrl(url, a, b, slash)
    ensures TargetOf(url) == IndexOutOfRange
  {
    hide Split;
    SplitChar(a, '/', b + slash);
    if slash == "" {
      assert b + slash == b;
      SplitLast(b, '/');
    } else {
      assert b + slash == b + "/" + "";
      SplitChar(b, '/', "");
      SplitLast("", '/');
    }
  }

  lemma NoPortOutOfRange(url: string, a: string, b: string, addr: string, path: string)
    requires PortlessUrl(url, a, b, addr, path)
    ensures TargetOf(url) == IndexOutOfRange
  {
    hide Split;
    SplitChar(a, '/', b + "/" + (addr + path));
    SplitChar(b, '/', addr + path);
    SplitTrailing(addr, '/', path);
    FewPieces(addr, ':');
    var vec := Split(url, "/");
    assert vec == [a] + ([b] + Split(addr + path, "/"));
    assert vec[2] == Split(addr + path, "/")[0];
  }

  lemma SecondIsLast(url: string) returns (a: string, b: string, slash: string)
    requires |Split(url, "/")| == 2
    ensures TwoPieceUrl(url, a, b, slash)
  {
    hide Split;
    var more1, r1, more2, r2;
    a, more1, r1 := FirstPiece(url, '/');
    b, more2, r2 := FirstPiece(r1, '/');
    slash := if more2 then "/" else "";
    if more2 {
      SplitUnfolds(r2, "/");
      assert r2 == [];
      assert r1 == b + slash;
    } else {
      assert r1 == b + slash;
    }
  }

  /**
   * The constructor indexes past its vector exactly for the URLs of two pieces and for those whose
   * third piece has no port; these are the URLs that get past the guard and have no host and port.
   */
  lemma OutOfRangeExact(url: string)
    ensures TargetOf(url) == IndexOutOfRange <==> HasTwoPieces(url) || HasNoPort(url)
    ensures TargetOf(url) == IndexOutOfRange
       <==> !LacksSecond(url, '/') && forall host, port :: !HasShape(url, host, port)
  {
    OutOfRangeShapes(url);
    hide TargetOf, LacksSecond, HasShape, HasTwoPieces, HasNoPort;
    NoClientExact(url);
    forall host, port ensures TargetOf(url) == Client(host, port) <==> HasShape(url, host, port) {
      ParseExact(url, host, port);
    }
    var t := TargetOf(url);
    if t.Client? {
      assert HasShape(url, t.host, t.port);
    }
  }

  lemma OutOfRangeShapes(url: string)
    ensures TargetOf(url) == IndexOutOfRange <==> HasTwoPieces(url) || HasNoPort(url)
  {
    hide Split, TwoPieceUrl, PortlessUrl;
    if HasTwoPieces(url) {
      var a, b, slash :| TwoPieceUrl(url, a, b, slash);
      TwoPiecesOutOfRange(url, a, b, slash);
    } else if HasNoPort(url) {
      var a, b, addr, path :| PortlessUrl(url, a, b, addr, path);
      NoPortOutOfRange(url, a, b, addr, path);
    } else if TargetOf(url) == IndexOutOfRange {
      if |Split(url, "/")| == 2 {
        var a, b, slash := SecondIsLast(url);
      } else {
        PortlessThird(url);
      }
    }
  }

  lemma PortlessThird(url: string)
    requires |Split(url, "/")| > 2 && |Split(Split(url, "/")[2], ":")| < 2
    ensures HasNoPort(url)
  {
    hide Split;
    var a, b, addr, path := ThirdPiece(url);
    FewPieces(addr, ':');
    assert PortlessUrl(url, a, b, addr, path);
  }

  /** A URL of each kind the constructor does not survive. */
  lemma NoHostOutOfRange()
    ensures TargetOf("ws://") == IndexOutOfRange
  {
    hide TargetOf;
    assert "ws://" == "ws:" + "/" + ("" + "/");
    TwoPiecesOutOfRange("ws://", "ws:", "", "/");
  }

  lemma BareHostOutOfRange()
    ensures TargetOf("ws://host") == IndexOutOfRange
  {
    hide TargetOf;
    assert "ws://host" == "ws:" + "/" + ("" + "/" + ("host" + ""));
    NoPortOutOfRange("ws://host", "ws:", "", "host", "");
  }
}
