/**
 mg_normalize_uri_path as it runs: one index reads, a second one writes behind it, and the
 two buffers may be the same array.
 */
module UriNormalizer {
  import opened UriPath

  /** From s on the buffer still holds the path. */
  ghost predicate Unread(input: array<char>, path: string, s: nat)
    reads input
  {
    |path| == input.Length && forall j :: s <= j < |path| ==> input[j] == path[j]
  }

  lemma NextSlashStep(s: string, i: nat)
    requires i < |s| && s[i] != '/'
    ensures 1 + NextSlash(s[i + 1..]) == NextSlash(s[i..])
  {
    assert s[i..][1..] == s[i + 1..];
  }

  /** Ends of the component that starts at s, without its slash and with it. */
  method ParseComponent(input: array<char>, s: nat, ghost path: string) returns (end: nat, next: nat)
    requires s < input.Length && Unread(input, path, s)
    ensures s <= end <= next <= input.Length
    ensures end == s + NextSlash(path[s..]) && next == s + NextComponent(path[s..])
  {
    hide NextSlash;
    end := s;
    while end < input.Length && input[end] != '/'
      invariant s <= end <= input.Length
      invariant end - s + NextSlash(path[end..]) == NextSlash(path[s..])
    {
      NextSlashStep(path, end);
      end := end + 1;
    }
    SlashHere(path, end);
    next := if end < input.Length then end + 1 else end;
  }

  lemma SlashHere(s: string, i: nat)
    requires i <= |s| && (i < |s| ==> s[i] == '/')
    ensures NextSlash(s[i..]) == 0
  {
  }

  method StripFrom(output: array<char>, d: nat) returns (e: nat)
    requires d <= output.Length
    ensures e <= d && output[..e] == Strip(output[..d])
  {
    e := d;
    while e > 0 && output[e - 1] != '/'
      invariant e <= d && Strip(output[..e]) == Strip(output[..d])
    {
      assert output[..e][..e - 1] == output[..e - 1];
      e := e - 1;
    }
  }

  method BacktrackFrom(output: array<char>, d: nat) returns (e: nat)
    requires d <= output.Length
    ensures e <= d && output[..e] == Backtrack(output[..d])
  {
    e := d;
    if d > 1 && output[d - 1] == '/' {
      e := d - 1;
      assert output[..d][..d - 1] == output[..e];
    }
    e := StripFrom(output, e);
  }

  /** memmove down: what has not been read stays, also when the arrays are one. */
  method MoveDown(input: array<char>, s: nat, output: array<char>, d: nat, n: nat, ghost path: string)
    requires d <= s && s + n <= input.Length <= output.Length && Unread(input, path, s)
    modifies output
    ensures Unread(input, path, s + n)
    ensures output[..d + n] == old(output[..d]) + path[s..s + n]
  {
    ghost var before := output[..d];
    for k := 0 to n
      invariant Unread(input, path, s + k)
      invariant output[..d + k] == before + path[s..s + k]
    {
      output[d + k] := input[s + k];
      assert output[..d + k + 1] == output[..d + k] + [path[s + k]];
      assert path[s..s + k + 1] == path[s..s + k] + [path[s + k]];
    }
  }

  lemma ResolveCases(out: string, s: string)
    requires s != ""
    ensures var c := s[..NextSlash(s)];
            Resolve(out, s) == if c == "." then out else if c == ".." then Backtrack(out) else out + s[..NextComponent(s)]
  {
  }

  /** One component is resolved into the output. */
  method ResolveComponent(input: array<char>, s: nat, output: array<char>, d: nat, ghost path: string) returns (next: nat, e: nat)
    requires d <= s < input.Length <= output.Length && Unread(input, path, s)
    modifies output
    ensures next == s + NextComponent(path[s..]) && e <= next <= input.Length
    ensures Unread(input, path, next) && output[..e] == Resolve(old(output[..d]), path[s..])
  {
    hide NextSlash, NextComponent, Backtrack, Resolve;
    var end;
    end, next := ParseComponent(input, s, path);
    ghost var c := path[s..][..NextSlash(path[s..])];
    ResolveCases(output[..d], path[s..]);
    assert c == path[s..end];
    assert input[s..end] == path[s..end] by { assert forall j :: s <= j < end ==> input[j] == path[j]; }
    if input[s..end] == "." {
      e := d;
    } else if input[s..end] == ".." {
      e := BacktrackFrom(output, d);
    } else {
      assert path[s..next] == path[s..][..next - s];
      MoveDown(input, s, output, d, next - s, path);
      e := d + (next - s);
    }
  }

  /** The path is normalised into the output, which may be the input itself. */
  method NormalizeUriPath(input: array<char>, output: array<char>) returns (ok: bool, len: nat)
    requires input.Length <= output.Length
    modifies output
    ensures var r := NormalizePath(old(input[..]));
            ok == r.Some? && len <= output.Length && (ok ==> output[..len] == r.path)
    ensures !ok ==> len == 0 && output[..] == old(output[..])
  {
    hide Normalize, NextSlash, NextComponent, Resolve;
    if input.Length == 0 || input[0] != '/' {
      return false, 0;
    }
    ghost var path := input[..];
    var s: nat, d: nat := 0, 0;
    assert path[0..] == path && output[..0] == "";
    while s < input.Length
      invariant d <= s <= input.Length && Unread(input, path, s)
      invariant Normalize("", path) == Normalize(output[..d], path[s..])
      invariant s > 0 ==> d > 0 && output[0] == '/'
    {
      ghost var out: string, left: string := output[..d], path[s..];
      NormalizeStep(out, left);
      NeverEmpty(out, left);
      s, d := ResolveComponent(input, s, output, d, path);
      assert left[NextComponent(left)..] == path[s..];
      assert output[0] == output[..d][0];
    }
    assert path[s..] == "";
    NothingLeft(output[..d]);
    // a result without any slash would get one, but there is none
    assert d > 0;
    return true, d;
  }

  lemma NormalizeStep(out: string, s: string)
    requires s != ""
    ensures Normalize(out, s) == Normalize(Resolve(out, s), s[NextComponent(s)..])
  {
  }

  lemma NeverEmpty(out: string, s: string)
    requires s != "" && (out == "" ==> s[0] == '/') && (out != "" ==> out[0] == '/')
    ensures Resolve(out, s) != "" && Resolve(out, s)[0] == '/'
  {
    if out != "" { StripKeeps(out); StripKeeps(out[..|out| - 1]); }
  }

  lemma {:induction false} StripKeeps(out: string)
    ensures out != "" && out[0] == '/' ==> Strip(out) != "" && Strip(out)[0] == '/'
  {
    if out != "" && out[|out| - 1] != '/' { StripKeeps(out[..|out| - 1]); }
  }
}
