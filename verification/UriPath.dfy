/**
 mg_normalize_uri_path: "." and ".." are resolved component by component, over the path
 itself.  The result is that of remove_dot_segments in section 5.2.4 of RFC 3986.
 */
module UriPath {

  // ----- the algorithm on values

  /** Position of the next slash, or the end. */
  function NextSlash(s: string): (k: nat)
    ensures k <= |s| && (k < |s| ==> s[k] == '/') && '/' !in s[..k]
  {
    if s == "" || s[0] == '/' then 0 else 1 + NextSlash(s[1..])
  }

  /** Start of the component after the first. */
  function NextComponent(s: string): (n: nat)
    requires s != ""
    ensures 0 < n <= |s|
  {
    var k := NextSlash(s);
    if k < |s| then k + 1 else k
  }

  /** Back to behind the last slash. */
  function Strip(out: string): (r: string)
    ensures |r| <= |out| && r == out[..|r|]
  {
    if out == "" || out[|out| - 1] == '/' then out else Strip(out[..|out| - 1])
  }

  /** Back to behind the slash before the last component. */
  function Backtrack(out: string): (r: string)
    ensures |r| <= |out| && r == out[..|r|]
  {
    Strip(if |out| > 1 && out[|out| - 1] == '/' then out[..|out| - 1] else out)
  }

  function Resolve(out: string, s: string): string
    requires s != ""
  {
    var c := s[..NextSlash(s)];
    if c == "." then out else if c == ".." then Backtrack(out) else out + s[..NextComponent(s)]
  }

  function Normalize(out: string, s: string): string
    decreases |s|
  {
    if s == "" then out else Normalize(Resolve(out, s), s[NextComponent(s)..])
  }

  /** None when the path does not start with a slash. */
  datatype Option = None | Some(path: string)

  function NormalizePath(path: string): Option {
    if path == "" || path[0] != '/' then None else Some(Normalize("", path))
  }

  // ----- section 5.2.4 of RFC 3986

  function RemoveLast(out: string): string {
    if out == "" then "" else if out[|out| - 1] == '/' then out[..|out| - 1] else RemoveLast(out[..|out| - 1])
  }

  predicate At(s: string, i: nat, c: char) {
    i < |s| && s[i] == c
  }

  /** The first segment with its slash ends before the next slash. */
  function FirstSegment(s: string): (k: nat)
    requires s != ""
    ensures 0 < k <= |s|
  {
    1 + NextSlash(s[1..])
  }

  function RemoveDotSegments(s: string, out: string): string
    decreases |s|
  {
    if s == "" then out
    else if At(s, 0, '.') && At(s, 1, '.') && At(s, 2, '/') then RemoveDotSegments(s[3..], out)
    else if At(s, 0, '.') && At(s, 1, '/') then RemoveDotSegments(s[2..], out)
    else if At(s, 0, '/') && At(s, 1, '.') && At(s, 2, '/') then RemoveDotSegments(s[2..], out)
    else if At(s, 0, '/') && At(s, 1, '.') && |s| == 2 then RemoveDotSegments("/", out)
    else if At(s, 0, '/') && At(s, 1, '.') && At(s, 2, '.') && At(s, 3, '/') then RemoveDotSegments(s[3..], RemoveLast(out))
    else if At(s, 0, '/') && At(s, 1, '.') && At(s, 2, '.') && |s| == 3 then RemoveDotSegments("/", RemoveLast(out))
    else if s == "." || s == ".." then RemoveDotSegments("", out)
    else RemoveDotSegments(s[FirstSegment(s)..], out + s[..FirstSegment(s)])
  }

  // ----- the two agree

  lemma {:induction false} StripRemoves(out: string)
    requires out != "" && out[0] == '/'
    ensures Strip(out) == RemoveLast(out) + "/"
  {
    if out[|out| - 1] == '/' {
      assert out == out[..|out| - 1] + "/";
    } else {
      StripRemoves(out[..|out| - 1]);
    }
  }

  lemma BacktrackRemoves(out: string)
    requires out == "" || out[0] == '/'
    ensures Backtrack(out + "/") == RemoveLast(out) + "/"
  {
    if out == "" {
      assert "" + "/" == "/";
    } else {
      assert (out + "/")[..|out|] == out;
      StripRemoves(out);
    }
  }

  lemma {:induction false} RemoveLastRooted(out: string)
    requires out == "" || out[0] == '/'
    ensures RemoveLast(out) == "" || RemoveLast(out)[0] == '/'
  {
    if out != "" && out[|out| - 1] != '/' { RemoveLastRooted(out[..|out| - 1]); }
  }

  /** A last slash is moved over as it is. */
  lemma OneSlash(out: string)
    ensures RemoveDotSegments("/", out) == out + "/"
  {
    assert "/"[1..] == "" && FirstSegment("/") == 1;
  }

  /** With a component c up to a slash or the end, one step of the standard's loop. */
  lemma StandardStep(s: string, out: string)
    requires s != ""
    ensures var c, rest := s[..NextSlash(s)], s[NextComponent(s)..];
            var more := NextSlash(s) < |s|;
            RemoveDotSegments("/" + s, out) ==
              if c == "." then RemoveDotSegments("/" + rest, out)
              else if c == ".." then RemoveDotSegments("/" + rest, RemoveLast(out))
              else RemoveDotSegments(if more then "/" + rest else "", out + ("/" + c))
  {
    var k := NextSlash(s);
    var p := "/" + s;
    assert p[1..] == s;
    assert s == s[..k] + s[k..];
    if s[..k] == "." {
      DotStep(s, out);
    } else if s[..k] == ".." {
      DotDotStep(s, out);
    } else {
      SegmentStep(s, out);
    }
  }

  lemma DotStep(s: string, out: string)
    requires s != "" && s[..NextSlash(s)] == "."
    ensures RemoveDotSegments("/" + s, out) == RemoveDotSegments("/" + s[NextComponent(s)..], out)
  {
    var p := "/" + s;
    assert s[0] == s[..NextSlash(s)][0] == '.';
    if |s| > 1 {
      assert p[2..] == "/" + s[2..];
    } else {
      assert "/" + s[1..] == "/";
    }
  }

  lemma DotDotStep(s: string, out: string)
    requires s != "" && s[..NextSlash(s)] == ".."
    ensures RemoveDotSegments("/" + s, out) == RemoveDotSegments("/" + s[NextComponent(s)..], RemoveLast(out))
  {
    hide RemoveLast;
    var p := "/" + s;
    assert s[0] == s[..NextSlash(s)][0] == '.' && s[1] == s[..NextSlash(s)][1] == '.';
    if |s| > 2 {
      assert p[3..] == "/" + s[3..];
    } else {
      assert "/" + s[2..] == "/";
    }
  }

  lemma SegmentStep(s: string, out: string)
    requires s != "" && s[..NextSlash(s)] != "." && s[..NextSlash(s)] != ".."
    ensures RemoveDotSegments("/" + s, out)
         == RemoveDotSegments(if NextSlash(s) < |s| then "/" + s[NextComponent(s)..] else "", out + ("/" + s[..NextSlash(s)]))
  {
    hide RemoveDotSegments, DotsAhead;
    var p, k := "/" + s, NextSlash(s);
    NotDots(s);
    SegmentMoves(p, out);
    hide NextSlash;
    assert p[1..] == s;
    assert p[..k + 1] == "/" + s[..k];
    assert p[k + 1..] == s[k..];
    if k < |s| { assert s[k..] == "/" + s[k + 1..]; }
  }

  /** A dot segment is next. */
  predicate DotsAhead(p: string) {
    && At(p, 0, '/') && At(p, 1, '.')
    && (|p| == 2 || At(p, 2, '/') || (At(p, 2, '.') && (|p| == 3 || At(p, 3, '/'))))
  }

  lemma SegmentMoves(p: string, out: string)
    requires At(p, 0, '/') && !DotsAhead(p)
    ensures RemoveDotSegments(p, out) == RemoveDotSegments(p[FirstSegment(p)..], out + p[..FirstSegment(p)])
  {
    hide RemoveLast;
  }

  lemma NotDots(s: string)
    requires s != "" && s[..NextSlash(s)] != "." && s[..NextSlash(s)] != ".."
    ensures !DotsAhead("/" + s)
  {
    var p := "/" + s;
    assert p[1..] == s;
    assert s[..|s|] == s;
    if |s| > 1 && s[1] == '/' && s[0] != '/' { SlashAt(s, 1); }
    if |s| > 2 && s[2] == '/' && s[0] != '/' && s[1] != '/' { SlashAt(s, 2); }
  }

  lemma SlashAt(s: string, k: nat)
    requires k < |s| && s[k] == '/' && '/' !in s[..k]
    ensures NextSlash(s) == k
  {
  }

  /** The slash the standard leaves in front of its input is behind the output here. */
  lemma {:induction false} Lockstep(s: string, out: string)
    requires out == "" || out[0] == '/'
    ensures Normalize(out + "/", s) == RemoveDotSegments("/" + s, out)
    decreases |s|
  {
    hide Backtrack, RemoveDotSegments, RemoveLast;
    if s == "" {
      OneSlash(out);
      assert "/" + s == "/";
    } else {
      var k, rest := NextSlash(s), s[NextComponent(s)..];
      var c := s[..k];
      StandardStep(s, out);
      if c == "." {
        Lockstep(rest, out);
      } else if c == ".." {
        BacktrackRemoves(out);
        RemoveLastRooted(out);
        Lockstep(rest, RemoveLast(out));
      } else if k < |s| {
        assert (out + "/") + s[..k + 1] == (out + ("/" + c)) + "/";
        Lockstep(rest, out + ("/" + c));
      } else {
        assert (out + "/") + s == out + ("/" + c);
        NothingLeft(out + ("/" + c));
      }
    }
  }

  lemma NothingLeft(out: string)
    ensures RemoveDotSegments("", out) == out && Normalize(out, "") == out
  {
  }

  lemma RootStep(path: string)
    requires path != "" && path[0] == '/'
    ensures Normalize("", path) == Normalize("/", path[1..])
  {
    assert NextSlash(path) == 0 && path[..0] == "" && path[..1] == "/";
    assert "" + "/" == "/";
  }

  /** Every path that starts with a slash is normalised as the standard says. */
  lemma NormalizeIsStandard(path: string)
    ensures NormalizePath(path) ==
      if path == "" || path[0] != '/' then None else Some(RemoveDotSegments(path, ""))
  {
    hide Normalize, RemoveDotSegments;
    if path != "" && path[0] == '/' {
      RootStep(path);
      Lockstep(path[1..], "");
      assert "" + "/" == "/" && "/" + path[1..] == path;
    }
  }

  // ----- what a normalised path looks like

  /** No component is "." or "..". */
  predicate Clean(s: string)
    decreases |s|
  {
    s == "" || (var c := s[..NextSlash(s)]; c != "." && c != ".." && Clean(s[NextComponent(s)..]))
  }

  /** A slash, then components without dots, each with its slash. */
  predicate Rooted(out: string) {
    out != "" && out[0] == '/' && Clean(out[1..])
  }

  predicate EndsSlash(s: string) {
    s == "" || s[|s| - 1] == '/'
  }

  /** Clean up to the slash at k and behind it. */
  lemma CleanAt(s: string, k: nat)
    requires k < |s| && s[k] == '/' && '/' !in s[..k]
    ensures Clean(s) == (s[..k] != "." && s[..k] != ".." && Clean(s[k + 1..]))
  {
    SlashAt(s, k);
  }

  lemma {:induction false} CleanAppend(s: string, t: string)
    requires Clean(s) && EndsSlash(s) && Clean(t)
    ensures Clean(s + t)
    decreases |s|
  {
    hide Clean;
    if s == "" {
      assert s + t == t;
    } else {
      var k := FirstSlash(s);
      CleanAt(s, k);
      assert (s + t)[..k] == s[..k] && (s + t)[k + 1..] == s[k + 1..] + t;
      CleanAppend(s[k + 1..], t);
      CleanAt(s + t, k);
    }
  }

  lemma FirstSlash(s: string) returns (k: nat)
    requires s != "" && EndsSlash(s)
    ensures k < |s| && s[k] == '/' && '/' !in s[..k] && EndsSlash(s[k + 1..])
  {
    k := NextSlash(s);
  }

  lemma {:induction false} CleanPrefix(s: string, n: nat)
    requires Clean(s) && n <= |s| && EndsSlash(s[..n])
    ensures Clean(s[..n])
    decreases |s|
  {
    hide NextSlash, Clean;
    var p := s[..n];
    if n == 0 {
      assert Clean("") by { CleanEmpty(); }
    } else {
      var k := FirstSlash(p);
      assert p[..k] == s[..k];
      CleanAt(s, k);
      assert p[k + 1..] == s[k + 1..][..n - k - 1];
      CleanPrefix(s[k + 1..], n - k - 1);
      CleanAt(p, k);
    }
  }

  lemma CleanEmpty()
    ensures Clean("")
  {
  }

  /** A single component, with its slash or without. */
  lemma CleanOne(s: string)
    requires s != "" && s[..NextSlash(s)] != "." && s[..NextSlash(s)] != ".."
    ensures Clean(s[..NextComponent(s)])
  {
    var k, n := NextSlash(s), NextComponent(s);
    var p := s[..n];
    assert p[..k] == s[..k];
    if k < |s| {
      SlashAt(p, k);
      assert p[k + 1..] == "";
    } else {
      assert p == s && s[k..] == "";
    }
  }

  lemma {:induction false} StripEnds(out: string)
    requires out != "" && out[0] == '/'
    ensures Strip(out) != "" && EndsSlash(Strip(out))
  {
    if out[|out| - 1] != '/' { StripEnds(out[..|out| - 1]); }
  }

  lemma BacktrackRooted(out: string)
    requires Rooted(out)
    ensures Rooted(Backtrack(out)) && EndsSlash(Backtrack(out))
  {
    hide Strip, Clean;
    var o := if |out| > 1 && out[|out| - 1] == '/' then out[..|out| - 1] else out;
    StripEnds(o);
    var r := Backtrack(out);
    assert r[1..] == out[1..][..|r| - 1];
    CleanPrefix(out[1..], |r| - 1);
  }

  lemma AppendRooted(out: string, t: string)
    requires Rooted(out) && EndsSlash(out) && Clean(t) && t != ""
    ensures Rooted(out + t) && (EndsSlash(t) ==> EndsSlash(out + t))
  {
    hide Clean;
    assert EndsSlash(out[1..]);
    CleanAppend(out[1..], t);
    assert (out + t)[1..] == out[1..] + t;
  }

  lemma ComponentEnds(s: string)
    requires s != ""
    ensures EndsSlash(s[..NextComponent(s)]) || NextComponent(s) == |s|
  {
  }

  lemma ResolveRooted(out: string, s: string)
    requires Rooted(out) && EndsSlash(out) && s != ""
    ensures var r := Resolve(out, s); Rooted(r) && (EndsSlash(r) || NextComponent(s) == |s|)
  {
    hide Clean, Backtrack, Rooted, EndsSlash, NextSlash, NextComponent;
    var c := s[..NextSlash(s)];
    if c == ".." {
      BacktrackRooted(out);
    } else if c != "." {
      CleanOne(s);
      ComponentEnds(s);
      AppendRooted(out, s[..NextComponent(s)]);
    }
  }

  lemma {:induction false} NormalizeRooted(out: string, s: string)
    requires Rooted(out) && (EndsSlash(out) || s == "")
    ensures Rooted(Normalize(out, s))
    decreases |s|
  {
    hide Rooted, Resolve, EndsSlash;
    if s != "" {
      ResolveRooted(out, s);
      NormalizeRooted(Resolve(out, s), s[NextComponent(s)..]);
    }
  }

  /** A normalised path starts with a slash and has no "." or ".." component. */
  lemma NormalizedClean(path: string)
    ensures var r := NormalizePath(path); r.Some? ==> Rooted(r.path)
  {
    hide Normalize;
    if path != "" && path[0] == '/' {
      RootStep(path);
      NormalizeRooted("/", path[1..]);
    }
  }

  lemma {:induction false} CleanStays(out: string, s: string)
    requires Clean(s)
    ensures Normalize(out, s) == out + s
    decreases |s|
  {
    if s == "" {
      assert out + s == out;
    } else {
      hide Backtrack;
      var n := NextComponent(s);
      CleanStays(out + s[..n], s[n..]);
      assert (out + s[..n]) + s[n..] == out + s;
    }
  }

  /** Normalising twice changes nothing. */
  lemma Idempotent(path: string)
    ensures var r := NormalizePath(path); r.Some? ==> NormalizePath(r.path) == r
  {
    hide Normalize, Clean;
    if path != "" && path[0] == '/' {
      NormalizedClean(path);
      var p := Normalize("", path);
      RootStep(p);
      CleanStays("/", p[1..]);
      assert "/" + p[1..] == p;
    }
  }
}
