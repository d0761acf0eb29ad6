/**
 * What the client does with a line typed by its user: `trim()`, the `:q`
 * test, and the `"<username>: "` prefix that `format!` adds.
 */
module Lines {
  import opened Bytes
  import opened Utf8

  /** The ASCII characters `char::is_whitespace` accepts: tab, LF, VT, FF, CR and space. */
  predicate IsSpace(b: byte) {
    b == 0x20 || 0x09 <= b <= 0x0D
  }

  /** s without its leading whitespace. */
  function TrimStart(s: Bytes): Bytes
    decreases |s|
  {
    if s != [] && IsSpace(s[0]) then TrimStart(s[1..]) else s
  }

  /** s without its trailing whitespace. */
  function TrimEnd(s: Bytes): Bytes
    decreases |s|
  {
    if s != [] && IsSpace(s[|s| - 1]) then TrimEnd(s[..|s| - 1]) else s
  }

  /** `str::trim`, on ASCII whitespace. */
  function Trim(s: Bytes): Bytes {
    TrimEnd(TrimStart(s))
  }

  /**
   * TrimStart removes exactly the leading whitespace: it leaves a suffix
   * of s that does not start with whitespace, and all it removed is
   * whitespace.
   */
  lemma {:induction false} TrimStartIsSuffix(s: Bytes)
    ensures |TrimStart(s)| <= |s| && TrimStart(s) == s[|s| - |TrimStart(s)|..]
    ensures TrimStart(s) == [] || !IsSpace(TrimStart(s)[0])
    ensures forall k :: 0 <= k < |s| - |TrimStart(s)| ==> IsSpace(s[k])
    decreases |s|
  {
    if s != [] && IsSpace(s[0]) {
      TrimStartIsSuffix(s[1..]);
      var r := TrimStart(s);
      assert s[1..][|s| - 1 - |r|..] == s[|s| - |r|..];
      forall k | 1 <= k < |s| - |r| ensures IsSpace(s[k]) {
        assert s[k] == s[1..][k - 1];
      }
    }
  }

  /**
   * TrimEnd removes exactly the trailing whitespace: it leaves a prefix of
   * s that does not end with whitespace, and all it removed is whitespace.
   */
  lemma {:induction false} TrimEndIsPrefix(s: Bytes)
    ensures |TrimEnd(s)| <= |s| && TrimEnd(s) == s[..|TrimEnd(s)|]
    ensures TrimEnd(s) == [] || !IsSpace(TrimEnd(s)[|TrimEnd(s)| - 1])
    ensures forall k :: |TrimEnd(s)| <= k < |s| ==> IsSpace(s[k])
    decreases |s|
  {
    if s != [] && IsSpace(s[|s| - 1]) {
      TrimEndIsPrefix(s[..|s| - 1]);
      var r := TrimEnd(s);
      assert s[..|s| - 1][..|r|] == s[..|r|];
      forall k | |r| <= k < |s| - 1 ensures IsSpace(s[k]) {
        assert s[k] == s[..|s| - 1][k];
      }
    }
  }

  /**
   * Trim removes exactly the whitespace at both ends: the result is the
   * slice s[i..j], everything outside it is whitespace, and the result
   * neither starts nor ends with whitespace.
   */
  lemma TrimIsInnerSlice(s: Bytes) returns (i: nat, j: nat)
    ensures i <= j <= |s| && Trim(s) == s[i..j]
    ensures forall k :: 0 <= k < i ==> IsSpace(s[k])
    ensures forall k :: j <= k < |s| ==> IsSpace(s[k])
    ensures Trim(s) == [] || (!IsSpace(Trim(s)[0]) && !IsSpace(Trim(s)[|Trim(s)| - 1]))
  {
    var t := TrimStart(s);
    var r := TrimEnd(t);
    TrimStartIsSuffix(s);
    TrimEndIsPrefix(t);
    i := |s| - |t|;
    j := i + |r|;
    assert r == t[..|r|] && t == s[i..];
    forall k | j <= k < |s| ensures IsSpace(s[k]) {
      assert s[k] == t[k - i];
    }
    if r != [] {
      assert r[0] == t[0];
    }
  }

  /** Trimming twice is trimming once. */
  lemma TrimIdempotent(s: Bytes)
    ensures Trim(Trim(s)) == Trim(s)
  {
    var r := Trim(s);
    var i, j := TrimIsInnerSlice(s);
    assert TrimStart(r) == r;
    assert TrimEnd(r) == r;
  }

  /** Removing a leading ASCII byte at a time keeps a valid string valid. */
  lemma {:induction false} TrimStartKeepsUtf8(s: Bytes)
    requires ValidUtf8(s)
    ensures ValidUtf8(TrimStart(s))
    decreases |s|
  {
    if s != [] && IsSpace(s[0]) {
      DropAsciiValid(s);
      TrimStartKeepsUtf8(s[1..]);
    }
  }

  /** Trimming cuts only ASCII whitespace, so the text stays valid UTF-8. */
  lemma TrimKeepsUtf8(s: Bytes)
    requires ValidUtf8(s)
    ensures ValidUtf8(Trim(s))
  {
    var t := TrimStart(s);
    TrimStartKeepsUtf8(s);
    TrimEndIsPrefix(t);
    PrefixBeforeAsciiValid(t, |TrimEnd(t)|);
  }

  /** `:q`, the line that ends the send loop. */
  const QUIT: Bytes := [0x3A, 0x71]

  /** `": "`, between the user name and the line. */
  const SEPARATOR: Bytes := [0x3A, 0x20]

  /** The trimmed line is `:q`. */
  predicate IsQuit(line: Bytes) {
    Trim(line) == QUIT
  }

  /** `format!("{}: {}", username, line.trim())`. */
  function Outgoing(username: Bytes, line: Bytes): Bytes {
    username + SEPARATOR + Trim(line)
  }

  /**
   * An outgoing message is the user name, then `": "`, then the trimmed
   * line, and it is valid UTF-8 whenever the name and the line are.
   */
  lemma OutgoingShape(username: Bytes, line: Bytes)
    ensures |Outgoing(username, line)| == |username| + 2 + |Trim(line)|
    ensures Outgoing(username, line)[..|username|] == username
    ensures Outgoing(username, line)[|username|..|username| + 2] == SEPARATOR
    ensures Outgoing(username, line)[|username| + 2..] == Trim(line)
    ensures ValidUtf8(username) && ValidUtf8(line) ==> ValidUtf8(Outgoing(username, line))
  {
    var m := Outgoing(username, line);
    assert m[|username|..|username| + 2] == SEPARATOR;
    if ValidUtf8(username) && ValidUtf8(line) {
      TrimKeepsUtf8(line);
      AsciiIsValid(SEPARATOR);
      ConcatValid(username, SEPARATOR);
      ConcatValid(username + SEPARATOR, Trim(line));
    }
  }

  /** Trimming takes a slice, so it adds no NUL. */
  lemma TrimKeepsNoZero(line: Bytes)
    requires NoZero(line)
    ensures NoZero(Trim(line))
  {
    var i, j := TrimIsInnerSlice(line);
    var t := Trim(line);
    forall k | 0 <= k < |t| ensures t[k] != 0 {
      assert t[k] == line[i + k];
    }
  }

  /** An outgoing message holds a NUL only if the user name or the line does. */
  lemma OutgoingNoZero(username: Bytes, line: Bytes)
    requires NoZero(username) && NoZero(line)
    ensures NoZero(Outgoing(username, line))
  {
    TrimKeepsNoZero(line);
    var t := Trim(line);
    var m := username + SEPARATOR + t;
    forall k | 0 <= k < |m| ensures m[k] != 0 {
      if k < |username| {
        assert m[k] == username[k];
      } else if k < |username| + 2 {
        assert m[k] == SEPARATOR[k - |username|];
      } else {
        assert m[k] == t[k - |username| - 2];
      }
    }
  }

  /** Surrounding whitespace does not hide the sentinel: "  :q\r\n" still quits. */
  lemma QuitIgnoresSurroundingSpace(pre: Bytes, post: Bytes)
    requires forall k :: 0 <= k < |pre| ==> IsSpace(pre[k])
    requires forall k :: 0 <= k < |post| ==> IsSpace(post[k])
    ensures IsQuit(pre + QUIT + post)
  {
    var i, j := TrimIsInnerSlice(pre + QUIT + post);
    var s := pre + QUIT + post;
    assert s[|pre|] == 0x3A && s[|pre| + 1] == 0x71;
    assert i == |pre|;
    assert j == |pre| + 2;
    assert s[i..j] == QUIT;
  }
}
