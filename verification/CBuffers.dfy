/** Character buffers: the in-place string routines of the ini parser. */
module CBuffers {
  import opened CText

  const NUL := '\0'

  ghost predicate Terminated(a: seq<char>) {
    exists i :: 0 <= i < |a| && a[i] == NUL
  }

  /** The C string that starts at the buffer's first character. */
  function TextOf(a: seq<char>): string {
    a[..IndexOf(a, NUL)]
  }

  lemma TerminatedLength(a: seq<char>)
    requires Terminated(a)
    ensures |TextOf(a)| < |a| && a[|TextOf(a)|] == NUL
    ensures Without(TextOf(a), NUL)
  {
  }

  lemma TextOfUnique(a: seq<char>, s: string)
    requires |s| < |a| && a[..|s|] == s && a[|s|] == NUL && Without(s, NUL)
    ensures Terminated(a) && TextOf(a) == s
  {
    assert forall i :: 0 <= i < |s| ==> a[i] == s[i];
    IndexOfUnique(a, NUL, |s|);
  }

  method StrLen(s: array<char>) returns (n: nat)
    requires Terminated(s[..])
    ensures n == |TextOf(s[..])| < s.Length && s[n] == NUL
  {
    n := 0;
    TerminatedLength(s[..]);
    while s[n] != NUL
      invariant 0 <= n <= |TextOf(s[..])|
      decreases |TextOf(s[..])| - n
    {
      assert s[..][n] != NUL;
      n := n + 1;
    }
    IndexOfUnique(s[..], NUL, n);
  }

  lemma TextOfPrefix(a: seq<char>)
    ensures |TextOf(a)| <= |a| && TextOf(a) == a[..|TextOf(a)|]
  {
  }

  method FirstNonBlank(s: array<char>, end: nat) returns (i: nat)
    requires end < s.Length && s[end] == NUL
    requires Without(s[..end], NUL)
    ensures i <= end && LTrim(s[..end]) == s[..end][i..]
  {
    ghost var text := s[..end];
    i := 0;
    while s[i] != NUL && IsSpace(s[i])
      invariant 0 <= i <= end
      invariant LTrim(text[i..]) == LTrim(text)
      decreases end - i
    {
      assert text[i..][1..] == text[i + 1..];
      i := i + 1;
    }
  }

  method BlankTail(s: array<char>, i: nat, end: nat) returns (last: nat)
    requires i <= end < s.Length
    ensures i <= last <= end && RTrim(s[i..end]) == s[i..last]
  {
    last := end;
    while last > i
      invariant i <= last <= end
      invariant RTrim(s[i..last]) == RTrim(s[i..end])
    {
      if !IsSpace(s[last - 1]) {
        break;
      }
      assert s[i..last][..last - i - 1] == s[i..last - 1];
      last := last - 1;
    }
  }

  /** The two loops of strstrip: where the text without its outer blanks starts and ends. */
  method BlankEnds(s: array<char>) returns (i: nat, last: nat)
    requires Terminated(s[..])
    ensures i <= last < s.Length && last <= |TextOf(s[..])|
    ensures TextOf(s[..])[i..last] == Strip(TextOf(s[..])) == s[i..last]
    ensures Without(s[i..last], NUL)
  {
    hide TextOf;
    ghost var text := TextOf(s[..]);
    TerminatedLength(s[..]);
    var end := StrLen(s);
    assert text == s[..end] by {
      TextOfPrefix(s[..]);
    }
    i := FirstNonBlank(s, end);
    last := BlankTail(s, i, end);
    assert s[i..last] == text[i..last];
    assert text[i..] == s[i..end];
  }

  /** strstrip: cut the blanks off both ends, in place; the result is the new length. */
  method StrStrip(s: array<char>) returns (len: nat)
    requires Terminated(s[..])
    modifies s
    ensures Terminated(s[..])
    ensures TextOf(s[..]) == Strip(old(TextOf(s[..]))) && len == |TextOf(s[..])|
  {
    ghost var text := TextOf(s[..]);
    var i, last := BlankEnds(s);
    s[last] := NUL;
    forall k | 0 <= k <= last - i {
      s[k] := s[i + k];
    }
    assert s[..last - i] == text[i..last];
    len := last - i;
    TextOfUnique(s[..], text[i..last]);
  }

  /** strlwc: at most `len - 1` characters of `in_`, lowered into `out`, which may be `in_`. */
  method StrLwc(in_: array<char>, out: array<char>, len: nat) returns (ok: bool)
    requires Terminated(in_[..])
    requires len > 0 ==> |TextOf(in_[..])| < out.Length || len <= out.Length
    modifies out
    ensures ok <==> len > 0
    ensures ok ==> Terminated(out[..]) && TextOf(out[..]) == Lower(Take(old(TextOf(in_[..])), len - 1))
    ensures !ok ==> out[..] == old(out[..])
  {
    if len == 0 {
      return false;
    }
    ghost var text := TextOf(in_[..]);
    TerminatedLength(in_[..]);
    assert forall j :: 0 <= j < |text| ==> in_[..][j] == text[j];
    var i := 0;
    while in_[i] != NUL && i < len - 1
      invariant 0 <= i <= |text| && i <= len - 1 && i < out.Length
      invariant forall j :: i <= j < |text| ==> in_[j] == text[j]
      invariant |text| < in_.Length && in_[|text|] == NUL
      invariant forall j :: 0 <= j < i ==> out[j] == ToLower(text[j])
      decreases |text| - i
    {
      out[i] := ToLower(in_[i]);
      i := i + 1;
    }
    out[i] := NUL;
    assert out[..i] == Lower(Take(text, len - 1));
    TextOfUnique(out[..], out[..i]);
    return true;
  }

  /** What a library conversion stores: the text, then a terminating NUL. */
  method StoreText(s: string, out: array<char>)
    requires |s| < out.Length && Without(s, NUL)
    modifies out
    ensures Terminated(out[..]) && TextOf(out[..]) == s
    ensures out[|s| + 1..] == old(out[|s| + 1..])
  {
    forall k | 0 <= k < |s| {
      out[k] := s[k];
    }
    out[|s|] := NUL;
    assert out[..|s|] == s;
    TextOfUnique(out[..], s);
  }
}
