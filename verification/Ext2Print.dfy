/** `print` of ssu_ext2: the bytes of a file, all of them or up to a number of lines. */
module Ext2Print {
  import opened Common
  import opened Ext2Image

  const NEWLINE: Byte := 10

  // ----------------------------------------------------------------- lines

  function Newlines(s: seq<Byte>): nat {
    if s == [] then 0 else (if s[0] == NEWLINE then 1 else 0) + Newlines(s[1..])
  }

  /** s up to and with its n-th newline, or all of s. */
  function FirstLines(s: seq<Byte>, n: nat): seq<Byte> {
    if s == [] || n == 0 then []
    else [s[0]] + FirstLines(s[1..], if s[0] == NEWLINE then n - 1 else n)
  }

  lemma {:induction false} NewlinesConcat(a: seq<Byte>, b: seq<Byte>)
    ensures Newlines(a + b) == Newlines(a) + Newlines(b)
  {
    if a == [] {
      assert a + b == b;
    } else {
      NewlinesConcat(a[1..], b);
      assert (a + b)[1..] == a[1..] + b;
    }
  }

  lemma {:induction false} FirstLinesConcat(a: seq<Byte>, b: seq<Byte>, n: nat)
    ensures Newlines(a) >= n ==> FirstLines(a + b, n) == FirstLines(a, n)
    ensures Newlines(a) < n ==> FirstLines(a + b, n) == a + FirstLines(b, n - Newlines(a))
  {
    hide Newlines, FirstLines;
    if a == [] {
      assert a + b == b;
      Nothing(b, n);
    } else if n == 0 {
      FirstLinesNone(a);
      FirstLinesNone(a + b);
    } else {
      var n' := if a[0] == NEWLINE then n - 1 else n;
      FirstLinesConcat(a[1..], b, n');
      OneByte(a, n);
      OneByte(a + b, n);
      assert (a + b)[1..] == a[1..] + b && (a + b)[0] == a[0];
      if Newlines(a) < n {
        assert n' - Newlines(a[1..]) == n - Newlines(a);
        FrontByte(a, FirstLines(b, n - Newlines(a)));
      }
    }
  }

  lemma Nothing(b: seq<Byte>, n: nat)
    ensures Newlines([]) == 0 && FirstLines([], n) == [] && [] + FirstLines(b, n) == FirstLines(b, n)
    ensures FirstLines(b, 0) == []
  {
  }

  lemma FirstLinesNone(s: seq<Byte>)
    ensures FirstLines(s, 0) == []
  {
  }

  lemma OneByte(s: seq<Byte>, n: nat)
    requires s != [] && n > 0
    ensures FirstLines(s, n) == [s[0]] + FirstLines(s[1..], if s[0] == NEWLINE then n - 1 else n)
    ensures Newlines(s) == (if s[0] == NEWLINE then 1 else 0) + Newlines(s[1..])
  {
  }

  lemma FrontByte(a: seq<Byte>, r: seq<Byte>)
    requires a != []
    ensures [a[0]] + (a[1..] + r) == a + r
  {
  }

  lemma FirstLinesAll(s: seq<Byte>, n: nat)
    requires Newlines(s) < n
    ensures FirstLines(s, n) == s
  {
    FirstLinesConcat(s, [], n);
    assert s + [] == s;
  }

  /** FirstLines(s, n) is the shortest prefix of s with n newlines, or s if s has fewer. */
  lemma {:induction false} FirstLinesShortest(s: seq<Byte>, n: nat, k: nat)
    requires k <= |s|
    ensures FirstLines(s, n) <= s
    ensures Newlines(FirstLines(s, n)) == if Newlines(s) < n then Newlines(s) else n
    ensures Newlines(s) < n ==> FirstLines(s, n) == s
    ensures Newlines(s[..k]) >= n ==> |FirstLines(s, n)| <= k
  {
    if s != [] && n > 0 {
      var n' := if s[0] == NEWLINE then n - 1 else n;
      if k > 0 {
        FirstLinesShortest(s[1..], n', k - 1);
        assert s[..k][1..] == s[1..][..k - 1];
      } else {
        FirstLinesShortest(s[1..], n', 0);
      }
      assert FirstLines(s, n)[1..] == FirstLines(s[1..], n');
    }
  }

  // ----------------------------------------------------------------- contents

  /** How much of a file of `size` bytes is in its block number `logical`. */
  function Amount(size: nat, blockSize: nat, logical: nat): (r: nat)
    ensures r <= blockSize
  {
    if size <= Mul(logical, blockSize) then 0
    else if size - Mul(logical, blockSize) > blockSize then blockSize
    else size - Mul(logical, blockSize)
  }

  function BlockBytes(fs: Fs, inode: Inode, logical: nat, amount: nat): (r: Option<seq<Byte>>)
    requires Geometry(fs) && |inode.blocks| == 15 && amount <= fs.blockSize
    ensures r.Some? <==> DataBlock(fs, inode, logical).Some?
    ensures r.Some? ==> |r.value| == amount
  {
    DataBlockInside(fs, inode, logical, amount);
    match DataBlock(fs, inode, logical)
    case None => None
    case Some(block) => if block == 0 then Some(seq(amount, i => 0)) else Read(fs.image, Offset(fs, block), amount)
  }

  /** The bytes in the first n blocks of a file; None if one of them cannot be translated. */
  function Content(fs: Fs, inode: Inode, n: nat): Option<seq<Byte>>
    requires Geometry(fs) && |inode.blocks| == 15
  {
    if n == 0 then Some([])
    else
      var before := Content(fs, inode, n - 1);
      var block := BlockBytes(fs, inode, n - 1, Amount(Size(inode), fs.blockSize, n - 1));
      if before.None? || block.None? then None else Some(before.value + block.value)
  }

  function Blocks(fs: Fs, inode: Inode): nat
    requires Geometry(fs)
  {
    CeilDiv(Size(inode), fs.blockSize)
  }

  /** The whole file has the size its inode says. */
  lemma {:induction false} ContentLength(fs: Fs, inode: Inode, n: nat)
    requires Geometry(fs) && |inode.blocks| == 15 && Content(fs, inode, n).Some?
    ensures |Content(fs, inode, n).value| == if Size(inode) <= Mul(n, fs.blockSize) then Size(inode) else Mul(n, fs.blockSize)
  {
    hide Mul, Geometry, Size;
    if n > 0 {
      var m := n - 1;
      ContentLength(fs, inode, m);
      NextBlock(m, fs.blockSize);
    } else {
      NoBlock(fs.blockSize);
    }
  }

  lemma NextBlock(m: nat, size: nat)
    ensures Mul(m + 1, size) == Mul(m, size) + size
  {
  }

  lemma NoBlock(size: nat)
    ensures Mul(0, size) == 0
  {
  }

  lemma WholeFile(fs: Fs, inode: Inode)
    requires Geometry(fs) && |inode.blocks| == 15 && Content(fs, inode, Blocks(fs, inode)).Some?
    ensures |Content(fs, inode, Blocks(fs, inode)).value| == Size(inode)
  {
    ContentLength(fs, inode, Blocks(fs, inode));
  }

  lemma {:induction false} ContentPrefix(fs: Fs, inode: Inode, m: nat, n: nat)
    requires Geometry(fs) && |inode.blocks| == 15 && m <= n && Content(fs, inode, n).Some?
    ensures Content(fs, inode, m).Some? && Content(fs, inode, m).value <= Content(fs, inode, n).value
  {
    hide Geometry;
    if m < n {
      ContentPrefix(fs, inode, m, n - 1);
    }
  }

  // ----------------------------------------------------------------- printing

  /** The loop over one block: where the last line that is wanted ends, if it does. */
  method Scan(buffer: seq<Byte>, lines: nat, limit: nat) returns (hit: bool, end: nat, seen: nat)
    requires lines < limit
    ensures end <= |buffer| && (hit ==> Newlines(buffer) >= limit - lines && buffer[..end] == FirstLines(buffer, limit - lines))
    ensures !hit ==> seen == lines + Newlines(buffer) < limit
  {
    seen := lines;
    var i := 0;
    while i < |buffer|
      invariant 0 <= i <= |buffer| && seen == lines + Newlines(buffer[..i]) < limit
    {
      assert buffer == buffer[..i] + buffer[i..];
      assert buffer[..i + 1] == buffer[..i] + [buffer[i]];
      NewlinesConcat(buffer[..i], [buffer[i]]);
      if buffer[i] == NEWLINE {
        seen := seen + 1;
        if seen == limit {
          var left := limit - lines;
          assert buffer == buffer[..i + 1] + buffer[i + 1..];
          NewlinesConcat(buffer[..i + 1], buffer[i + 1..]);
          FirstLinesConcat(buffer[..i], [NEWLINE], left);
          assert FirstLines([NEWLINE], 1) == [NEWLINE] + FirstLines([], 0);
          FirstLinesConcat(buffer[..i + 1], buffer[i + 1..], left);
          return true, i + 1, seen;
        }
      }
      i := i + 1;
    }
    assert buffer[..i] == buffer;
    return false, |buffer|, seen;
  }

  /** print_inode_data: what went to standard output. */
  method PrintInodeData(fs: Fs, inode: Inode, limited: bool, limit: nat) returns (ok: bool, out: seq<Byte>)
    requires Geometry(fs) && |inode.blocks| == 15 && (limited ==> limit > 0)
    ensures var whole := Content(fs, inode, Blocks(fs, inode));
            && (!limited ==> ok == whole.Some? && (ok ==> out == whole.value))
            && (limited && whole.Some? ==> ok && out == FirstLines(whole.value, limit))
    ensures ok && limited ==> exists m :: 0 <= m <= Blocks(fs, inode) && Content(fs, inode, m).Some? && out == FirstLines(Content(fs, inode, m).value, limit)
                                          && (m == Blocks(fs, inode) || Newlines(Content(fs, inode, m).value) >= limit)
    ensures !ok ==> exists m :: 0 <= m < Blocks(fs, inode) && Content(fs, inode, m) == Some(out) && Content(fs, inode, m + 1).None?
    ensures !ok && limited ==> Newlines(out) < limit
  {
    hide Geometry, Amount, BlockBytes;
    var blocks := Blocks(fs, inode);
    ghost var whole := Content(fs, inode, blocks);
    ok, out := true, [];
    var lines, logical := 0, 0;
    while logical < blocks
      invariant 0 <= logical <= blocks && ok && Content(fs, inode, logical) == Some(out)
      invariant limited ==> lines == Newlines(out) < limit
    {
      var next := logical + 1;
      if whole.Some? { ContentPrefix(fs, inode, next, blocks); }
      var buffer := BlockBytes(fs, inode, logical, Amount(Size(inode), fs.blockSize, logical));
      if buffer.None? {
        assert Content(fs, inode, next).None?;
        return false, out;
      }
      assert Content(fs, inode, next) == Some(out + buffer.value);
      NewlinesConcat(out, buffer.value);
      if limited {
        var hit, end, seen := Scan(buffer.value, lines, limit);
        if hit {
          FirstLinesConcat(out, buffer.value, limit);
          if whole.Some? { LongerFile(out + buffer.value, whole.value, limit); }
          return true, out + buffer.value[..end];
        }
        lines := seen;
      }
      out := out + buffer.value;
      logical := next;
    }
    if limited { FirstLinesAll(out, limit); }
  }

  lemma LongerFile(a: seq<Byte>, c: seq<Byte>, n: nat)
    requires a <= c && Newlines(a) >= n
    ensures FirstLines(c, n) == FirstLines(a, n)
  {
    assert c == a + c[|a|..];
    FirstLinesConcat(a, c[|a|..], n);
  }
}
