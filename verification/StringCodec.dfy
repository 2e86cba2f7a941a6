/** The escaping of string values in configuration files: sym_escape_string_value
    and the reader in conf_set_sym_val, both on C buffers, and kconfiglib's
    replacements. */
module StringCodec {
  import opened Options

  const NUL: char := 0 as char

  predicate Special(c: char) {
    c == '"' || c == '\\'
  }

  /** A backslash in front of every quote and backslash. */
  function Escape(s: string): string {
    if s == "" then "" else (if Special(s[0]) then ['\\', s[0]] else [s[0]]) + Escape(s[1..])
  }

  /** The text up to the first quote that no backslash precedes, without the
      backslashes that only protect what follows; none if there is no such quote. */
  function Unescape(s: string): Option<string> {
    if s == "" then None
    else if s[0] == '"' then Some("")
    else if s[0] != '\\' then Prefixed([s[0]], Unescape(s[1..]))
    else if |s| == 1 then None
    else Prefixed([s[1]], Unescape(s[2..]))
  }

  function Prefixed(p: string, o: Option<string>): Option<string> {
    if o.Some? then Some(p + o.value) else None
  }

  /** Reading undoes writing, whatever follows on the line. */
  lemma {:induction false} UnescapeEscape(s: string, rest: string)
    ensures Unescape(Escape(s) + "\"" + rest) == Some(s)
  {
    if s == "" {
      assert Escape(s) + "\"" + rest == "\"" + rest;
    } else {
      UnescapeEscape(s[1..], rest);
      var tail := Escape(s[1..]) + "\"" + rest;
      if Special(s[0]) {
        assert Escape(s) + "\"" + rest == ['\\', s[0]] + tail;
      } else {
        assert Escape(s) + "\"" + rest == [s[0]] + tail;
      }
      assert s == [s[0]] + s[1..];
    }
  }

  /** A backslash in front of the characters that are marked. */
  function Marked(s: string, marks: seq<bool>): string
    requires |marks| == |s|
  {
    if s == "" then "" else (if marks[0] then ['\\', s[0]] else [s[0]]) + Marked(s[1..], marks[1..])
  }

  /** All quotes and backslashes are marked, and any other characters. */
  predicate Protects(s: string, marks: seq<bool>) {
    |marks| == |s| && forall i | 0 <= i < |s| :: Special(s[i]) ==> marks[i]
  }

  /** What is read is the text before a quote, with any characters protected, but quotes
      and backslashes always; and every such text is read. */
  lemma UnescapeExactly(s: string, text: string)
    ensures Unescape(s) == Some(text) <==>
              exists marks, rest | Protects(text, marks) :: s == Marked(text, marks) + "\"" + rest
  {
    if Unescape(s) == Some(text) {
      var marks, rest := UnescapeMarks(s);
      assert Protects(text, marks) && s == Marked(text, marks) + "\"" + rest;
    }
    if marks, rest :| Protects(text, marks) && s == Marked(text, marks) + "\"" + rest {
      UnescapeMarked(text, marks, rest);
    }
  }

  lemma {:induction false} UnescapeMarked(s: string, marks: seq<bool>, rest: string)
    requires Protects(s, marks)
    ensures Unescape(Marked(s, marks) + "\"" + rest) == Some(s)
  {
    if s == "" {
      assert Marked(s, marks) + "\"" + rest == "\"" + rest;
    } else {
      UnescapeMarked(s[1..], marks[1..], rest);
      var tail := Marked(s[1..], marks[1..]) + "\"" + rest;
      if marks[0] {
        assert Marked(s, marks) + "\"" + rest == ['\\', s[0]] + tail;
      } else {
        assert Marked(s, marks) + "\"" + rest == [s[0]] + tail;
      }
      assert s == [s[0]] + s[1..];
    }
  }

  lemma UnescapeFirst(s: string)
    requires Unescape(s).Some?
    ensures s != "" && (s[0] == '"' ==> Unescape(s) == Some(""))
    ensures s[0] == '\\' ==> |s| > 1 && Unescape(s) == Prefixed([s[1]], Unescape(s[2..]))
    ensures !Special(s[0]) ==> Unescape(s) == Prefixed([s[0]], Unescape(s[1..]))
  {
  }

  lemma MarkedFirst(c: char, mark: bool, s: string, marks: seq<bool>)
    requires Protects(s, marks) && (Special(c) ==> mark)
    ensures Protects([c] + s, [mark] + marks)
    ensures Marked([c] + s, [mark] + marks) == (if mark then ['\\', c] else [c]) + Marked(s, marks)
  {
    assert ([c] + s)[1..] == s && ([mark] + marks)[1..] == marks;
  }

  lemma {:induction false} UnescapeMarks(s: string) returns (marks: seq<bool>, rest: string)
    requires Unescape(s).Some?
    ensures var text := Unescape(s).value; Protects(text, marks) && s == Marked(text, marks) + "\"" + rest
  {
    hide Unescape, Marked, Protects;
    UnescapeFirst(s);
    if s[0] == '"' {
      marks, rest := [], s[1..];
      NothingMarked();
      assert s == "" + "\"" + s[1..];
    } else {
      var mark := s[0] == '\\';
      var c, head, tail := if mark then s[1] else s[0], if mark then s[..2] else s[..1], if mark then s[2..] else s[1..];
      assert s == head + tail && head == if mark then ['\\', c] else [c];
      var more;
      more, rest := UnescapeMarks(tail);
      marks := [mark] + more;
      var text := Unescape(tail).value;
      MarkedFirst(c, mark, text, more);
      assert head + (Marked(text, more) + "\"" + rest) == (head + Marked(text, more)) + "\"" + rest;
    }
  }

  lemma NothingMarked()
    ensures Protects("", []) && Marked("", []) == ""
  {
  }

  /** strcspn(&s[p], "\"\\") and strpbrk: the next special character. */
  method NextSpecial(s: string, p: nat) returns (q: nat)
    requires p <= |s|
    ensures p <= q <= |s| && (forall k | p <= k < q :: !Special(s[k])) && (q < |s| ==> Special(s[q]))
  {
    q := p;
    while q < |s| && !Special(s[q])
      invariant p <= q <= |s| && forall k | p <= k < q :: !Special(s[k])
    {
      q := q + 1;
    }
  }

  lemma {:induction false} EscapePlain(s: string, p: nat, q: nat)
    requires p <= q <= |s| && forall k | p <= k < q :: !Special(s[k])
    ensures Escape(s[p..]) == s[p..q] + Escape(s[q..])
    decreases q - p
  {
    if p < q {
      EscapePlain(s, p + 1, q);
      assert s[p..][1..] == s[p + 1..];
      assert s[p..q] == [s[p]] + s[p + 1..q];
    }
  }

  lemma EscapeSpecial(s: string, p: nat)
    requires p < |s| && Special(s[p])
    ensures Escape(s[p..]) == ['\\', s[p]] + Escape(s[p + 1..])
  {
    assert s[p..][1..] == s[p + 1..];
  }

  /** strcat and strncat: `len` is where the text in the buffer ends. */
  method Append(buf: array<char>, len: nat, s: string) returns (len': nat)
    requires len + |s| < buf.Length
    modifies buf
    ensures len' == len + |s| && buf[..len'] == old(buf[..len]) + s && buf[len'] == NUL
  {
    for i := 0 to |s|
      invariant buf[..len + i] == old(buf[..len]) + s[..i]
    {
      buf[len + i] := s[i];
    }
    len' := len + |s|;
    buf[len'] := NUL;
  }

  /** The first loop of sym_escape_string_value: the size of the buffer. */
  method EscapedSize(s: string) returns (reslen: nat)
    ensures reslen == |Escape(s)| + 3
  {
    reslen := |s| + 2 + 1;
    var p := 0;
    assert s[0..] == s;
    while true
      invariant p <= |s| && reslen + |Escape(s[p..])| == |Escape(s)| + 3 + |s| - p
      decreases |s| - p
    {
      var q := NextSpecial(s, p);
      EscapePlain(s, p, q);
      p := q;
      if p == |s| {
        break;
      }
      EscapeSpecial(s, p);
      reslen := reslen + 1;
      p := p + 1;
    }
    assert s[|s|..] == "";
  }

  lemma Shift(a: string, b: string, c: string)
    ensures a + (b + c) == (a + b) + c
  {
  }

  /** The second loop: the text goes into the buffer piece by piece. */
  method FillEscaped(s: string, res: array<char>, start: nat) returns (len: nat)
    requires start + |Escape(s)| < res.Length
    modifies res
    ensures len == start + |Escape(s)| && res[..len] == old(res[..start]) + Escape(s)
  {
    hide Escape;
    len := start;
    var p := 0;
    ghost var head := res[..start];
    assert s[0..] == s;
    while true
      invariant p <= |s| && 0 <= len < res.Length
      invariant res[..len] + Escape(s[p..]) == head + Escape(s)
      decreases |s| - p
    {
      var q := NextSpecial(s, p);
      EscapePlain(s, p, q);
      Shift(res[..len], s[p..q], Escape(s[q..]));
      assert |res[..len] + Escape(s[p..])| == |head + Escape(s)|;
      len := Append(res, len, s[p..q]);
      p := q;
      if p == |s| {
        break;
      }
      EscapeSpecial(s, p);
      Shift(res[..len], ['\\', s[p]], Escape(s[p + 1..]));
      assert |res[..len] + Escape(s[p..])| == |head + Escape(s)|;
      assert "\\" + [s[p]] == ['\\', s[p]];
      Shift(res[..len], "\\", [s[p]]);
      len := Append(res, len, "\\");
      len := Append(res, len, [s[p]]);
      p := p + 1;
    }
    EscapeNothing(s);
    assert res[..len] + "" == res[..len];
  }

  lemma EscapeNothing(s: string)
    ensures Escape(s[|s|..]) == ""
  {
  }

  /** sym_escape_string_value: the text fills the buffer to the last character. */
  method EscapeStringValue(s: string) returns (res: array<char>)
    ensures res[..] == "\"" + Escape(s) + "\"" + [NUL]
  {
    var reslen := EscapedSize(s);
    res := new char[reslen];
    res[0] := NUL;
    var len := Append(res, 0, "\"");
    len := FillEscaped(s, res, len);
    len := Append(res, len, "\"");
    assert res[..] == res[..len] + [res[len]];
  }

  // The reader

  /** A NUL-terminated text fills the buffer from `p` to `m`. */
  ghost predicate TextAt(buf: array<char>, p: nat, m: nat)
    reads buf
  {
    p <= m < buf.Length && buf[m] == NUL && forall k | p <= k < m :: buf[k] != NUL
  }

  /** strpbrk(&buf[p], "\"\\"), `end` being where it would return NULL. */
  method FindSpecial(buf: array<char>, p: nat, ghost end: nat) returns (q: nat)
    requires TextAt(buf, p, end)
    ensures p <= q <= end && (forall k | p <= k < q :: !Special(buf[k])) && (q < end ==> Special(buf[q])) && (buf[q] == NUL <==> q == end)
  {
    q := p;
    while buf[q] != NUL && !Special(buf[q])
      invariant p <= q <= end && forall k | p <= k < q :: !Special(buf[k])
      decreases end - q
    {
      q := q + 1;
    }
  }

  /** memmove(&buf[p], &buf[p + 1], strlen(&buf[p])). */
  method ShiftLeft(buf: array<char>, p: nat, ghost end: nat)
    requires TextAt(buf, p, end) && p < end
    modifies buf
    ensures buf[p..end] == old(buf[p + 1..end + 1]) && buf[..p] == old(buf[..p]) && buf[end] == NUL
  {
    var k := p;
    while buf[k] != NUL
      invariant p <= k <= end && buf[end] == NUL
      invariant forall i | 0 <= i < buf.Length :: buf[i] == if p <= i < k then old(buf[i + 1]) else old(buf[i])
      decreases end - k
    {
      buf[k] := buf[k + 1];
      k := k + 1;
    }
  }

  lemma {:induction false} UnescapePlain(s: string, q: nat)
    requires q <= |s| && forall k | 0 <= k < q :: !Special(s[k])
    ensures Unescape(s) == Prefixed(s[..q], Unescape(s[q..]))
    decreases q
  {
    if q == 0 {
      assert s[0..] == s && s[..0] == "";
      PrefixedNothing(Unescape(s));
    } else {
      assert forall k | 0 <= k < q - 1 :: s[1..][k] == s[k + 1];
      UnescapePlain(s[1..], q - 1);
      assert s[1..][q - 1..] == s[q..] && s[..q] == [s[0]] + s[1..][..q - 1];
      PrefixedTwice([s[0]], s[1..][..q - 1], Unescape(s[q..]));
    }
  }

  lemma PrefixedNothing(o: Option<string>)
    ensures Prefixed("", o) == o
  {
    if o.Some? {
      assert "" + o.value == o.value;
    }
  }

  lemma PrefixedTwice(p: string, q: string, o: Option<string>)
    ensures Prefixed(p, Prefixed(q, o)) == Prefixed(p + q, o)
  {
    if o.Some? {
      assert p + (q + o.value) == (p + q) + o.value;
    }
  }

  /** A backslash is overwritten by what follows it, which is then passed over,
      even where that is the end of the text. */
  method DropBackslash(buf: array<char>, start: nat, q: nat, ghost m: nat) returns (ghost m': nat)
    requires start <= q < m && TextAt(buf, q, m) && buf[q] == '\\'
    modifies buf
    ensures q + 1 <= m' <= m && TextAt(buf, q + 1, m') && buf[..start] == old(buf[..start])
    ensures Prefixed(buf[start..q + 1], Unescape(buf[q + 1..m'])) == old(Prefixed(buf[start..q], Unescape(buf[q..m])))
    ensures m' < m || buf[q + 1] == NUL
  {
    ghost var done, tail, shifted := buf[start..q], buf[q..m], buf[q + 1..m + 1];
    ShiftLeft(buf, q, m);
    assert forall k | q <= k < m :: buf[k] == buf[q..m][k - q] == shifted[k - q];
    assert buf[start..q] == buf[..q][start..] == done;
    assert buf[..start] == buf[..q][..start];
    UnescapeBackslash(done, tail);
    m' := if q + 1 < m then m - 1 else m;
    if q + 1 < m {
      assert buf[start..q + 1] == done + [tail[1]];
      assert buf[q + 1..m'] == tail[2..];
    }
  }

  /** The loop of conf_set_sym_val over a value whose opening quote has been
      passed: the text that is left at `start` is the value, if there is one. */
  method UnescapeInPlace(buf: array<char>, start: nat, ghost end: nat) returns (ok: bool)
    requires TextAt(buf, start, end)
    modifies buf
    ensures ok <==> Unescape(old(buf[start..end])).Some?
    ensures ok ==> var s := Unescape(old(buf[start..end])).value;
                   start + |s| < buf.Length && buf[start..start + |s|] == s && buf[start + |s|] == NUL
    ensures buf[..start] == old(buf[..start])
  {
    hide Unescape;
    ghost var text, m := buf[start..end], end;
    var p := start;
    assert buf[start..p] == "";
    PrefixedNothing(Unescape(text));
    while true
      invariant start <= p && TextAt(buf, p, m)
      invariant buf[..start] == old(buf[..start])
      invariant Unescape(text) == Prefixed(buf[start..p], Unescape(buf[p..m]))
      decreases m - p, if buf[p] == NUL then 0 else 1
    {
      var q := FindSpecial(buf, p, m);
      PassPlain(buf, start, p, q, m);
      if buf[q] == NUL {
        UnescapeEnd();
        ok := false;
        return;
      }
      if buf[q] == '"' {
        UnescapeQuote(buf[start..q], buf[q..m]);
        ghost var s := buf[start..q];
        buf[q] := NUL;
        assert buf[start..q] == s;
        ok := true;
        return;
      }
      m := DropBackslash(buf, start, q, m);
      p := q + 1;
    }
  }

  lemma UnescapeEnd()
    ensures Unescape("") == None
  {
  }

  lemma UnescapeQuote(done: string, tail: string)
    requires tail != "" && tail[0] == '"'
    ensures Prefixed(done, Unescape(tail)) == Some(done)
  {
    assert done + "" == done;
  }

  lemma PassPlain(buf: array<char>, start: nat, p: nat, q: nat, m: nat)
    requires start <= p <= q <= m < buf.Length && forall k | p <= k < q :: !Special(buf[k])
    ensures Prefixed(buf[start..p], Unescape(buf[p..m])) == Prefixed(buf[start..q], Unescape(buf[q..m]))
  {
    var rest := buf[p..m];
    UnescapePlain(rest, q - p);
    PrefixedTwice(buf[start..p], rest[..q - p], Unescape(rest[q - p..]));
    assert buf[start..p] + rest[..q - p] == buf[start..q] && rest[q - p..] == buf[q..m];
  }

  lemma UnescapeBackslash(done: string, tail: string)
    requires tail != "" && tail[0] == '\\'
    ensures |tail| == 1 ==> Prefixed(done, Unescape(tail)) == None
    ensures |tail| > 1 ==> Prefixed(done, Unescape(tail)) == Prefixed(done + [tail[1]], Unescape(tail[2..]))
  {
    if |tail| > 1 {
      PrefixedTwice(done, [tail[1]], Unescape(tail[2..]));
    }
  }

  // kconfiglib

  /** str.replace: from left to right, without overlap. */
  function Replace(s: string, pat: string, value: string): string
    requires pat != ""
  {
    if |s| < |pat| then s
    else if s[..|pat|] == pat then value + Replace(s[|pat|..], pat, value)
    else [s[0]] + Replace(s[1..], pat, value)
  }

  /** Symbol._make_conf. */
  function WriteValue(s: string): string {
    Replace(Replace(s, "\\", "\\\\"), "\"", "\\\"")
  }

  /** Config.load_config, the quotes around the value having been stripped. */
  function LoadValue(s: string): string {
    Replace(Replace(s, "\\\"", "\""), "\\\\", "\\")
  }

  /** Protecting the quotes and taking the protection off again, in any text. */
  lemma {:induction false} QuotesUndone(s: string)
    ensures Replace(Replace(s, "\"", "\\\""), "\\\"", "\"") == s
    ensures s != "" ==> var r := Replace(s, "\"", "\\\""); r != "" && r[0] != '"'
  {
    if s != "" {
      QuotesUndone(s[1..]);
      var rest := Replace(s[1..], "\"", "\\\"");
      var all := Replace(s, "\"", "\\\"");
      if s[0] == '"' {
        assert s[..1] == "\"";
        assert all == "\\\"" + rest;
        assert all[..2] == "\\\"" && all[2..] == rest;
        assert "\"" + s[1..] == s;
      } else {
        assert s[..1] != "\"";
        assert all == [s[0]] + rest && all[1..] == rest;
        assert |all| >= 2 ==> all[..2] != "\\\"" by {
          if |all| >= 2 {
            assert all[1] == rest[0];
            assert "\\\""[1] == '"';
          }
        }
        assert [s[0]] + s[1..] == s;
        if |all| < 2 {
          assert rest == "" && s[1..] == "";
        }
      }
    }
  }

  /** Doubling the backslashes and halving them again, in any text. */
  lemma {:induction false} BackslashesUndone(s: string)
    ensures Replace(Replace(s, "\\", "\\\\"), "\\\\", "\\") == s
  {
    if s != "" {
      BackslashesUndone(s[1..]);
      var rest := Replace(s[1..], "\\", "\\\\");
      var all := Replace(s, "\\", "\\\\");
      if s[0] == '\\' {
        assert s[..1] == "\\";
        assert all == "\\\\" + rest;
        assert all[..2] == "\\\\" && all[2..] == rest;
        assert "\\" + s[1..] == s;
      } else {
        assert s[..1][0] == s[0] && "\\"[0] == '\\';
        assert all == [s[0]] + rest && all[1..] == rest;
        assert |all| >= 2 ==> all[..2][0] == s[0] && "\\\\"[0] == '\\';
        assert [s[0]] + s[1..] == s;
        if |all| < 2 {
          assert rest == "" && s[1..] == "";
        }
      }
    }
  }

  /** Whatever value is written is loaded again. */
  lemma LoadWritten(s: string)
    ensures LoadValue(WriteValue(s)) == s
  {
    QuotesUndone(Replace(s, "\\", "\\\\"));
    BackslashesUndone(s);
  }

  /** Both implementations write the same text, so that each reads the other's. */
  lemma {:induction false} WritersAgree(s: string)
    ensures WriteValue(s) == Escape(s)
  {
    if s != "" {
      WritersAgree(s[1..]);
      var rest := Replace(s[1..], "\\", "\\\\");
      if s[0] == '\\' {
        assert s[..1] == "\\";
        var all := Replace(s, "\\", "\\\\");
        assert all == "\\\\" + rest;
        assert all[..1][0] == '\\' && all[1..][..1][0] == '\\' && "\""[0] == '"';
        assert all[1..][1..] == rest && all[1..] == "\\" + rest;
        assert Replace(all[1..], "\"", "\\\"") == ['\\'] + Replace(rest, "\"", "\\\"");
        assert Replace(all, "\"", "\\\"") == ['\\'] + Replace(all[1..], "\"", "\\\"");
      } else {
        assert s[..1][0] == s[0] && "\\"[0] == '\\';
        var all := Replace(s, "\\", "\\\\");
        assert all == [s[0]] + rest && all[1..] == rest;
        if s[0] == '"' {
          assert all[..1] == "\"";
        } else {
          assert all[..1][0] == s[0] && "\""[0] == '"';
        }
      }
    }
  }
}
