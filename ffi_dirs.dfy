/** The native side's directory list as the program reads it: iterating a
    `StrList` (`StrList::next`) and collecting the strings (`ffi::dirs`).

    The native string list is the sequence of results `FcStrListNext` would
    return from now on; a list that has run out returns null, as the native
    call does. `CStr::to_str` (UTF-8 validation) is the parameter `toStr`. */
module FfiDirs {
  import opened Wrappers

  newtype byte = x: int | 0 <= x < 256

  /** One result of `FcStrListNext`: a null pointer, or the bytes of a C string. */
  datatype RawEntry = Null | CString(bytes: seq<byte>)

  /** The C strings the iterator can reach: those before the first null. */
  function UpToNull(entries: seq<RawEntry>): (r: seq<seq<byte>>)
    ensures |r| <= |entries|
    ensures forall i :: 0 <= i < |r| ==> entries[i] == CString(r[i])
    ensures |r| < |entries| ==> entries[|r|] == Null
    decreases |entries|
  {
    if entries == [] then []
    else
      match entries[0]
      case Null => []
      case CString(b) => [b] + UpToNull(entries[1..])
  }

  /** The strings of `entries` that decode, in their order. */
  function DecodedOnly(entries: seq<seq<byte>>, toStr: seq<byte> -> Option<string>): seq<string>
    decreases |entries|
  {
    if entries == [] then []
    else
      (match toStr(entries[0]) case Some(s) => [s] case None => [])
      + DecodedOnly(entries[1..], toStr)
  }

  /** What iterating the list yields: the decodable strings before the first null. */
  function Yielded(list: seq<RawEntry>, toStr: seq<byte> -> Option<string>): seq<string> {
    DecodedOnly(UpToNull(list), toStr)
  }

  /** `StrList::next`: pull entries until one decodes (yield it, with the list
      that remains) or a null is reached (`None`); an entry that does not
      decode is skipped by the recursive call. */
  function Next(list: seq<RawEntry>, toStr: seq<byte> -> Option<string>): (r: Option<(string, seq<RawEntry>)>)
    ensures r.None? ==> Yielded(list, toStr) == []
    // The iterator's new state is what remains after the yielded entry: a
    // strictly shorter suffix of the list.
    ensures r.Some? ==> |r.value.1| < |list| && r.value.1 == list[|list| - |r.value.1|..]
    ensures r.Some? ==> Yielded(list, toStr) == [r.value.0] + Yielded(r.value.1, toStr)
    decreases |list|
  {
    if list == [] then None
    else
      match list[0]
      case Null => None
      case CString(b) =>
        match toStr(b)
        case Some(s) => Some((s, list[1..]))
        case None => Next(list[1..], toStr)
  }

  /** `font_dirs().map(|s| s.to_string()).collect()`: call `next` until it
      returns `None`. The result is exactly what the list yields. */
  function Collect(list: seq<RawEntry>, toStr: seq<byte> -> Option<string>): (r: seq<string>)
    ensures r == Yielded(list, toStr)
    decreases |list|
  {
    match Next(list, toStr)
    case None => []
    case Some((s, rest)) => [s] + Collect(rest, toStr)
  }

  /** Nothing after the first null is ever yielded. */
  lemma {:induction false} StopsAtFirstNull(before: seq<RawEntry>, after: seq<RawEntry>,
                                            toStr: seq<byte> -> Option<string>)
    requires Null !in before
    ensures Yielded(before + [Null] + after, toStr) == Yielded(before, toStr)
  {
    if before != [] {
      assert (before + [Null] + after)[1..] == before[1..] + [Null] + after;
      StopsAtFirstNull(before[1..], after, toStr);
    } else {
      assert (before + [Null] + after)[0] == Null;
    }
  }

  /** Every yielded string is the decoding of some reachable entry (nothing
      undecodable is yielded), and every reachable entry that decodes is
      yielded. */
  lemma {:induction false} YieldsExactlyTheDecodable(entries: seq<seq<byte>>, toStr: seq<byte> -> Option<string>)
    ensures forall s :: s in DecodedOnly(entries, toStr) ==>
              exists i :: 0 <= i < |entries| && toStr(entries[i]) == Some(s)
    ensures forall i :: 0 <= i < |entries| && toStr(entries[i]).Some? ==>
              toStr(entries[i]).value in DecodedOnly(entries, toStr)
  {
    if entries != [] {
      YieldsExactlyTheDecodable(entries[1..], toStr);
      forall s | s in DecodedOnly(entries, toStr)
        ensures exists i :: 0 <= i < |entries| && toStr(entries[i]) == Some(s)
      {
        if s !in DecodedOnly(entries[1..], toStr) {
          assert toStr(entries[0]) == Some(s);
        } else {
          var i :| 0 <= i < |entries[1..]| && toStr(entries[1..][i]) == Some(s);
          assert toStr(entries[i + 1]) == Some(s);
        }
      }
      forall i | 0 <= i < |entries| && toStr(entries[i]).Some?
        ensures toStr(entries[i]).value in DecodedOnly(entries, toStr)
      {
        if i > 0 {
          assert entries[i] == entries[1..][i - 1];
        }
      }
    }
  }

  /** When every entry decodes, nothing is skipped: the strings come out one
      for one, in order. */
  lemma {:induction false} AllDecodableYieldsAll(entries: seq<seq<byte>>, toStr: seq<byte> -> Option<string>)
    requires forall i :: 0 <= i < |entries| ==> toStr(entries[i]).Some?
    ensures |DecodedOnly(entries, toStr)| == |entries|
    ensures forall i :: 0 <= i < |entries| ==> Some(DecodedOnly(entries, toStr)[i]) == toStr(entries[i])
  {
    if entries != [] {
      assert forall i :: 0 <= i < |entries[1..]| ==> entries[1..][i] == entries[i + 1];
      AllDecodableYieldsAll(entries[1..], toStr);
    }
  }
}
