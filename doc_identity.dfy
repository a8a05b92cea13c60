/**
 * `file_page_id(path, page)`: SHA-1 over the bytes
 * `path.encode("utf-8", errors="ignore") + b"::" + str(page).encode("utf-8")`,
 * returned as a hex digest.  The digest itself is a parameter `hash`; what
 * is modelled is the exact byte sequence it is applied to.
 */
module DocIdentity {
  import opened Text
  import opened Utf8
  import opened Decimal

  /** The SHA-1 hex digest of a byte sequence, supplied by the caller. */
  type Hasher = seq<Byte> -> string

  const Separator: seq<Byte> := [Colon, Colon]

  /** The bytes fed to the hasher, in order. */
  function Preimage(path: PyStr, page: int): (bs: seq<Byte>)
  {
    EncodeIgnore(path) + Separator + IntToDecimal(page)
  }

  function FilePageId(hash: Hasher, path: PyStr, page: int): (id: string)
  {
    hash(Preimage(path, page))
  }

  predicate SeparatorAt(bs: seq<Byte>, i: int)
  {
    0 <= i && i + 2 <= |bs| && bs[i] == Colon && bs[i + 1] == Colon
  }

  /** Start of the last occurrence of `::` in `bs`. */
  function LastSeparator(bs: seq<Byte>): (r: Option<nat>)
    ensures r.Some? ==> SeparatorAt(bs, r.value)
    ensures r.Some? ==> forall i :: r.value < i ==> !SeparatorAt(bs, i)
    ensures r.None? ==> forall i :: !SeparatorAt(bs, i)
  {
    if |bs| < 2 then None
    else if SeparatorAt(bs, |bs| - 2) then Some(|bs| - 2)
    else
      var r := LastSeparator(bs[..|bs| - 1]);
      assert forall i :: SeparatorAt(bs, i) && i < |bs| - 2 ==> SeparatorAt(bs[..|bs| - 1], i);
      r
  }

  /** Splits a preimage at its last `::` into the path bytes and the page number. */
  function SplitPreimage(bs: seq<Byte>): (r: Option<(seq<Byte>, int)>)
  {
    match LastSeparator(bs)
    case None => None
    case Some(i) =>
      match ParseInt(bs[i + 2..])
      case None => None
      case Some(page) => Some((bs[..i], page))
  }

  /**
   * The last `::` of a preimage is the separator itself: the page text that
   * follows it is non-empty and holds no colon, whatever the path bytes hold.
   */
  lemma {:induction false} SeparatorIsLast(path: seq<Byte>, tail: seq<Byte>)
    requires |tail| >= 1
    requires forall i :: 0 <= i < |tail| ==> tail[i] != Colon
    ensures LastSeparator(path + Separator + tail) == Some(|path|)
    decreases |tail|
  {
    var bs := path + Separator + tail;
    assert bs[|bs| - 1] == tail[|tail| - 1];
    var shorter := bs[..|bs| - 1];
    if |tail| == 1 {
      assert shorter == path + Separator;
      assert SeparatorAt(shorter, |shorter| - 2);
    } else {
      assert shorter == path + Separator + tail[..|tail| - 1];
      SeparatorIsLast(path, tail[..|tail| - 1]);
    }
  }

  /** The preimage can be split back into the encoded path and the page. */
  lemma SplitPreimageRoundTrip(path: PyStr, page: int)
    ensures SplitPreimage(Preimage(path, page)) == Some((EncodeIgnore(path), page))
  {
    var f := EncodeIgnore(path);
    var d := IntToDecimal(page);
    SeparatorIsLast(f, d);
    var bs := Preimage(path, page);
    assert bs[|f| + 2..] == d && bs[..|f|] == f;
    ParseIntDecimal(page);
  }

  /**
   * Distinct (path, page) pairs give distinct preimages, provided neither
   * path holds a lone surrogate that `errors="ignore"` would drop.
   */
  lemma PreimageInjective(path1: PyStr, page1: int, path2: PyStr, page2: int)
    requires NoSurrogates(path1) && NoSurrogates(path2)
    requires Preimage(path1, page1) == Preimage(path2, page2)
    ensures path1 == path2 && page1 == page2
  {
    SplitPreimageRoundTrip(path1, page1);
    SplitPreimageRoundTrip(path2, page2);
    EncodeInjective(path1, path2);
  }

  /** Pages of one file never share a preimage, surrogates or not. */
  lemma PagesOfOneFileDiffer(path: PyStr, page1: int, page2: int)
    requires page1 != page2
    ensures Preimage(path, page1) != Preimage(path, page2)
  {
    SplitPreimageRoundTrip(path, page1);
    SplitPreimageRoundTrip(path, page2);
  }

  /**
   * With `errors="ignore"`, a name and the same name without one lone
   * surrogate get the same id for every page.
   */
  lemma SurrogateNamesCollide(hash: Hasher, s: PyStr, c: CodePoint, t: PyStr, page: int)
    requires IsSurrogate(c)
    ensures s + [c] + t != s + t
    ensures FilePageId(hash, s + [c] + t, page) == FilePageId(hash, s + t, page)
  {
    assert |s + [c] + t| != |s + t|;
    SurrogateDropped(s, c, t);
  }
}
