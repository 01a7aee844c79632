/**
 * get_hex_name and MainWindow::GetSelectedHashes (mainwindow.cpp): the check
 * that a hash column text reads "0x" followed by hex digits up to an optional
 * '.', and the all-or-nothing conversion of a selection into hashes. The value
 * Utils::GetUnsigned reads from an accepted text is a parameter.
 */
module HexName {
  import opened CTypes

  /** tolower in the "C" locale. */
  function Lower(c: char): (l: char)
    ensures 'A' <= c <= 'Z' ==> l as int == c as int + 32
    ensures !('A' <= c <= 'Z') ==> l == c
  {
    if 'A' <= c <= 'Z' then (c as int + 32) as char else c
  }

  predicate IsHexDigit(c: char) {
    var l := Lower(c);
    ('0' <= l <= '9') || ('a' <= l <= 'f')
  }

  /** Utils::BeginsWith(fn, "0x", false): the prefix test without regard to case. */
  predicate HasHexPrefix(fn: string) {
    |fn| >= 2 && Lower(fn[0]) == '0' && Lower(fn[1]) == 'x'
  }

  /** The first position at or after `from` holding '.', or the length when there is none. */
  function DotFrom(fn: string, from: nat): (k: nat)
    requires from <= |fn|
    ensures from <= k <= |fn|
    ensures forall i | from <= i < k :: fn[i] != '.'
    ensures k < |fn| ==> fn[k] == '.'
    decreases |fn| - from
  {
    if from == |fn| || fn[from] == '.' then from else DotFrom(fn, from + 1)
  }

  /** What get_hex_name accepts: the prefix, something after it, and hex digits up to the first '.'. */
  predicate IsHexName(fn: string) {
    && HasHexPrefix(fn)
    && |fn| != 2
    && forall i | 2 <= i < DotFrom(fn, 2) :: IsHexDigit(fn[i])
  }

  /** get_hex_name, its success result; the value it stores is not modelled. */
  method GetHexName(fn: string) returns (ok: bool)
    ensures ok == IsHexName(fn)
  {
    if !HasHexPrefix(fn) {
      return false;
    }
    if |fn| == 2 {
      return false;
    }
    var i := 2;
    while i < |fn|
      invariant 2 <= i <= DotFrom(fn, 2)
      invariant forall k | 2 <= k < i :: IsHexDigit(fn[k])
    {
      var ch := Lower(fn[i]);
      if ch == '.' {
        break;
      }
      var good := false;
      if '0' <= ch <= '9' {
        good := true;
      } else if 'a' <= ch <= 'f' {
        good := true;
      }
      if !good {
        return false;
      }
      i := i + 1;
    }
    return true;
  }

  /** The length of the longest prefix of `texts` that get_hex_name accepts. */
  function AcceptedPrefix(texts: seq<string>): (n: nat)
    ensures n <= |texts|
    ensures forall i | 0 <= i < n :: IsHexName(texts[i])
    ensures n < |texts| ==> !IsHexName(texts[n])
  {
    if texts == [] || !IsHexName(texts[0]) then 0 else 1 + AcceptedPrefix(texts[1..])
  }

  /**
   * GetSelectedHashes over the hash column texts of the selected items, in
   * selection order. The vector holds one hash per text up to the first text
   * rejected; the count is the selection size when every text is accepted, 0
   * otherwise.
   */
  method GetSelectedHashes(selection: seq<string>, getUnsigned: string -> uint32)
    returns (count: nat, hashes: seq<uint32>)
    ensures |hashes| == AcceptedPrefix(selection)
    ensures forall i | 0 <= i < |hashes| :: hashes[i] == getUnsigned(selection[i])
    ensures (forall i | 0 <= i < |selection| :: IsHexName(selection[i])) ==> count == |selection|
    ensures count != 0 ==> count == |selection| && forall i | 0 <= i < |selection| :: IsHexName(selection[i])
  {
    hashes := [];
    for i := 0 to |selection|
      invariant |hashes| == i <= AcceptedPrefix(selection)
      invariant forall k | 0 <= k < i :: hashes[k] == getUnsigned(selection[k])
    {
      var ok := GetHexName(selection[i]);
      if !ok {
        return 0, hashes;
      }
      hashes := hashes + [getUnsigned(selection[i])];
    }
    count := |hashes|;
  }

  // ---------------------------------------------------------------------------
  // The hash texts RdbEntryToGui writes are always accepted

  function HexDigit(d: nat): (c: char)
    requires d < 16
    ensures IsHexDigit(c) && c != '.'
  {
    if d < 10 then ('0' as int + d) as char else ('a' as int + d - 10) as char
  }

  /** The last `width` hex digits of v, zero-padded, lower case (printf's "%0*x" for a value that fits). */
  function HexFixed(v: nat, width: nat): (s: string)
    ensures |s| == width
    ensures forall i | 0 <= i < width :: IsHexDigit(s[i]) && s[i] != '.'
  {
    if width == 0 then [] else HexFixed(v / 16, width - 1) + [HexDigit(v % 16)]
  }

  /** snprintf(hash, sizeof(hash), "0x%08x", file_id). */
  function HashText(fileId: uint32): (r: string)
    ensures |r| == 10 && HasHexPrefix(r) && '.' !in r
  {
    "0x" + HexFixed(fileId as nat, 8)
  }

  lemma HashTextAccepted(fileId: uint32)
    ensures IsHexName(HashText(fileId))
  {
    var t := HashText(fileId);
    assert forall i | 2 <= i < |t| :: t[i] == HexFixed(fileId as nat, 8)[i - 2];
    assert DotFrom(t, 2) == |t|;
  }

  /** A selection of items built by RdbEntryToGui always converts in full. */
  lemma {:induction false} GuiSelectionAccepted(fileIds: seq<uint32>)
    ensures AcceptedPrefix(seq(|fileIds|, i requires 0 <= i < |fileIds| => HashText(fileIds[i]))) == |fileIds|
  {
    if fileIds != [] {
      var texts := seq(|fileIds|, i requires 0 <= i < |fileIds| => HashText(fileIds[i]));
      HashTextAccepted(fileIds[0]);
      GuiSelectionAccepted(fileIds[1..]);
      assert texts[1..] == seq(|fileIds[1..]|, i requires 0 <= i < |fileIds[1..]| => HashText(fileIds[1..][i]));
    }
  }

  // ---------------------------------------------------------------------------
  // Edge cases of the scan

  lemma {:induction false} DotFromAppend(head: string, tail: string, from: nat)
    requires from <= |head|
    ensures DotFrom(head + "." + tail, from) == DotFrom(head, from)
    decreases |head| - from
  {
    var s := head + "." + tail;
    if from < |head| && head[from] != '.' {
      DotFromAppend(head, tail, from + 1);
    }
  }

  /** Nothing after the first '.' is examined. */
  lemma IgnoresAfterDot(head: string, tail1: string, tail2: string)
    requires |head| >= 2
    ensures IsHexName(head + "." + tail1) == IsHexName(head + "." + tail2)
  {
    DotFromAppend(head, tail1, 2);
    DotFromAppend(head, tail2, 2);
    var s1, s2 := head + "." + tail1, head + "." + tail2;
    assert forall i | 0 <= i < |head| :: s1[i] == head[i] && s2[i] == head[i];
  }

  /** "0x" alone is rejected, "0x." is accepted, and so is an upper-case prefix. */
  lemma BoundaryCases()
    ensures !IsHexName("0x")
    ensures IsHexName("0x.")
    ensures IsHexName("0X1f.anything")
    ensures !IsHexName("1x0")
    ensures !IsHexName("0x1g")
  {
    assert DotFrom("0x.", 2) == 2;
    assert DotFrom("0X1f.anything", 2) == 4 by {
      assert DotFrom("0X1f.anything", 4) == 4;
    }
    assert DotFrom("0x1g", 2) == 4;
  }
}
