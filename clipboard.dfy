/**
 * The two "copy to clipboard" actions (mainwindow.cpp): the texts of one column
 * of the selected items (the name column for "Copy name", the hash column for
 * "Copy hash"), in selection order, joined with '\n'. The clipboard is written
 * only when the joined text is not empty; the write itself is the `copied` result.
 */
module Clipboard {
  import opened QtString

  /** The texts one after the other, a '\n' between each two. */
  function Join(ts: seq<string>): (r: string)
    ensures ts != [] ==> |ts[0]| <= |r| && r[..|ts[0]|] == ts[0]
    decreases |ts|
  {
    if ts == [] then []
    else if |ts| == 1 then ts[0]
    else ts[0] + "\n" + Join(ts[1..])
  }

  /** Appending one more text adds a '\n' and that text. */
  lemma {:induction false} JoinSnoc(ts: seq<string>, t: string)
    requires ts != []
    ensures Join(ts + [t]) == Join(ts) + "\n" + t
    decreases |ts|
  {
    var u := ts + [t];
    if |ts| == 1 {
      assert u == [ts[0], t] && u[1..] == [t];
      assert Join(u) == ts[0] + "\n" + Join([t]);
    } else {
      assert u[0] == ts[0] && u[1..] == ts[1..] + [t];
      JoinSnoc(ts[1..], t);
      assert Join(u) == ts[0] + "\n" + Join(ts[1..] + [t]);
    }
  }

  /**
   * on_actionCopy_name_to_clipboard_triggered and
   * on_actionCopy_hash_to_clipboard_triggered, over the column texts of the
   * selection.
   */
  method ClipboardText(texts: seq<string>) returns (content: string, copied: bool)
    ensures content == Join(texts)
    ensures copied <==> |content| > 0
  {
    content := "";
    for i := 0 to |texts|
      invariant content == Join(texts[..i]) + (if 0 < i < |texts| then "\n" else "")
    {
      if i > 0 {
        JoinSnoc(texts[..i], texts[i]);
      } else {
        assert texts[..1] == [texts[0]];
      }
      assert texts[..i + 1] == texts[..i] + [texts[i]];
      content := content + texts[i];
      if i != |texts| - 1 {
        content := content + "\n";
      }
    }
    assert texts[..|texts|] == texts;
    copied := |content| > 0;
  }

  /** The joined text is empty exactly for no selection or one item with an empty text. */
  lemma JoinEmpty(ts: seq<string>)
    ensures Join(ts) == [] <==> ts == [] || (|ts| == 1 && ts[0] == [])
  {
    if |ts| > 1 {
      assert |Join(ts)| >= 1;
    }
  }

  /** QString::split('\n'): the pieces between the line breaks. */
  function Split(s: string): (ts: seq<string>)
    ensures |ts| >= 1
    decreases |s|
  {
    var k := IndexOf(s, '\n');
    if k == -1 then [s] else [s[..k]] + Split(s[k + 1..])
  }

  /** Texts without a line break are read back from the clipboard text one for one. */
  lemma {:induction false} SplitJoin(ts: seq<string>)
    requires ts != []
    requires forall i | 0 <= i < |ts| :: '\n' !in ts[i]
    ensures Split(Join(ts)) == ts
    decreases |ts|
  {
    if |ts| == 1 {
      assert IndexOf(ts[0], '\n') == -1;
    } else {
      var s := Join(ts);
      var head := ts[0];
      var rest := Join(ts[1..]);
      assert s == head + "\n" + rest;
      assert s[|head|] == '\n';
      assert '\n' !in s[..|head|] by {
        assert s[..|head|] == head;
      }
      assert IndexOf(s, '\n') == |head|;
      assert s[..|head|] == head;
      assert s[|head| + 1..] == rest;
      SplitJoin(ts[1..]);
    }
  }
}
