/**
 translate() as it rewrites a zero-terminated buffer in place: the write cursor never passes
 the read cursor, so no unread character is overwritten.
 */
module XPathTranslate {
  import opened Strings
  import opened XPathAst

  /** One entry's effect on a character: the replacement, or nothing for "skip". */
  function TableChar(c: char, table: seq<nat>): string {
    if c as nat < 128 && c as nat < |table| then (if table[c as nat] < 128 then [table[c as nat] as char] else []) else [c]
  }

  lemma {:induction false} TableTextAppend(s: string, c: char, table: seq<nat>)
    ensures TableText(s + [c], table) == TableText(s, table) + TableChar(c, table)
  {
    if s != "" {
      assert (s + [c])[1..] == s[1..] + [c];
      TableTextAppend(s[1..], c, table);
    } else {
      assert TableText([c][1..], table) == "";
    }
  }

  lemma {:induction false} TranslateTextAppend(s: string, c: char, from: string, to: string)
    ensures TranslateText(s + [c], from, to) == TranslateText(s, from, to) + TranslateChar(c, from, to)
  {
    if s != "" {
      assert (s + [c])[1..] == s[1..] + [c];
      TranslateTextAppend(s[1..], c, from, to);
    } else {
      assert TranslateText([c][1..], from, to) == "";
    }
  }

  /** The text so far is in [0, write), what is still unread is unchanged. */
  ghost predicate Converting(t: string, u: string, done: string, write: nat, read: nat) {
    write <= read <= |t| == |u| && u[..write] == done && u[read..] == t[read..]
  }

  lemma ConvertedOne(t: string, u: string, done: string, write: nat, read: nat, c: char, advance: bool)
    requires Converting(t, u, done, write, read) && read < |t|
    ensures Converting(t, u[write := c], if advance then done + [c] else done, if advance then write + 1 else write, read + 1)
  {
    var v := u[write := c];
    assert v[..write + 1] == done + [c] && v[..write] == done;
    assert v[read + 1..] == u[read..][1..];
  }

  /** Passing over a character that is dropped without a write. */
  lemma ConvertedNone(t: string, u: string, done: string, write: nat, read: nat)
    requires Converting(t, u, done, write, read) && read < |t|
    ensures Converting(t, u, done, write, read + 1)
  {
    assert u[read + 1..] == u[read..][1..];
  }

  /** The result is in place and terminated, and nothing behind the old terminator has changed. */
  ghost predicate Replaced(t: string, u: string, z: nat, text: string, end: nat) {
    && z < |t| == |u| && end <= z && u[..end] == text && u[end] == NUL && u[z + 1..] == t[z + 1..]
  }

  lemma ConvertedEnd(t: string, u: string, done: string, write: nat, z: nat)
    requires z < |t| && Converting(t, u, done, write, z)
    ensures Replaced(t, u[write := NUL], z, done, write)
  {
    var v := u[write := NUL];
    assert v[..write] == u[..write];
    assert v[z + 1..] == u[z..][1..];
  }

  /** translate. */
  method TranslateInPlace(a: array<char>, from: string, to: string, ghost z: nat) returns (end: nat)
    requires z < a.Length && a[z] == NUL && NUL !in a[..z]
    modifies a
    ensures Replaced(old(a[..]), a[..], z, TranslateText(old(a[..z]), from, to), end)
  {
    ghost var t := a[..];
    var write: nat, read: nat := 0, 0;
    while a[read] != NUL
      invariant read <= z && Converting(t, a[..], TranslateText(t[..read], from, to), write, read)
      invariant a[read] == t[read]
      decreases z - read
    {
      var c := a[read];
      assert t[..read + 1] == t[..read] + [c] && c in t[..z];
      TranslateTextAppend(t[..read], c, from, to);
      var pos := FindChar(from, c);
      if pos == |from| {
        ConvertedOne(t, a[..], TranslateText(t[..read], from, to), write, read, c, true);
        a[write] := c;
        write := write + 1;
      } else if pos < |to| {
        ConvertedOne(t, a[..], TranslateText(t[..read], from, to), write, read, to[pos], true);
        a[write] := to[pos];
        write := write + 1;
      } else {
        ConvertedNone(t, a[..], TranslateText(t[..read], from, to), write, read);
      }
      read := read + 1;
      assert a[read] == a[..][read..][0] && t[read] == t[read..][0];
    }
    ConvertedEnd(t, a[..], TranslateText(t[..z], from, to), write, z);
    a[write] := NUL;
    end := write;
  }

  /** translate_table: a code of 128 is written too, but the write cursor stays on it. */
  method TranslateTableInPlace(a: array<char>, table: seq<nat>, ghost z: nat) returns (end: nat)
    requires z < a.Length && a[z] == NUL && NUL !in a[..z]
    requires |table| == 128 && forall k :: 0 <= k < 128 ==> table[k] <= 128
    modifies a
    ensures Replaced(old(a[..]), a[..], z, TableText(old(a[..z]), table), end)
  {
    ghost var t := a[..];
    var write: nat, read: nat := 0, 0;
    while a[read] != NUL
      invariant read <= z && Converting(t, a[..], TableText(t[..read], table), write, read)
      invariant a[read] == t[read]
      decreases z - read
    {
      var c := a[read];
      assert t[..read + 1] == t[..read] + [c] && c in t[..z];
      TableTextAppend(t[..read], c, table);
      var index := c as nat;
      if index < 128 {
        var code := table[index];
        ConvertedOne(t, a[..], TableText(t[..read], table), write, read, code as char, code < 128);
        a[write] := code as char;
        write := write + 1 - code / 128;
      } else {
        ConvertedOne(t, a[..], TableText(t[..read], table), write, read, c, true);
        a[write] := c;
        write := write + 1;
      }
      read := read + 1;
      assert a[read] == a[..][read..][0] && t[read] == t[read..][0];
    }
    ConvertedEnd(t, a[..], TableText(t[..z], table), write, z);
    a[write] := NUL;
    end := write;
  }
}
