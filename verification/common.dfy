/** Vocabulary shared by the signalling server, the sender page and the receiver page. */
module Common {

  datatype Option<T> = None | Some(value: T)

  /** One octet of a file, of a WebSocket frame or of the entropy source. */
  newtype byte = x: int | 0 <= x < 256

  function Min(a: int, b: int): int
  {
    if a <= b then a else b
  }

  /** A file picked in the browser: its name, its MIME type ("" when the browser
      does not know it) and its bytes; the file's `size` is the length of `data`. */
  datatype File = File(name: string, mime: string, data: seq<byte>)

  /** What travels over the direct data channel: a text frame `meta:{name,type,size}`
      or a raw binary frame. */
  datatype Frame =
    | MetaFrame(name: string, mime: string, size: nat)
    | BinaryFrame(data: seq<byte>)

  /** Sum of the lengths of a list of fragments. */
  function TotalLength(parts: seq<seq<byte>>): nat
  {
    if parts == [] then 0 else TotalLength(parts[..|parts| - 1]) + |parts[|parts| - 1]|
  }

  /** The fragments joined end to end, in order (what `new Blob(parts)` holds). */
  function Concat(parts: seq<seq<byte>>): (r: seq<byte>)
    ensures |r| == TotalLength(parts)
  {
    if parts == [] then [] else Concat(parts[..|parts| - 1]) + parts[|parts| - 1]
  }

  /** Sequence facts used where the surrounding context makes the solver slow. */
  lemma AppendAssoc<T>(a: seq<T>, b: seq<T>, c: seq<T>)
    ensures a + (b + c) == a + b + c
  {
  }

  lemma DropOne<T>(s: seq<T>, i: nat)
    requires i < |s|
    ensures s[i..][0] == s[i] && s[i..][1..] == s[i + 1..]
  {
  }

  lemma PrefixTail<T>(s: seq<T>, j: nat)
    requires 0 < j <= |s|
    ensures s[..j][0] == s[0] && s[..j][1..] == s[1..][..j - 1]
  {
  }

  lemma ConcatAppend(parts: seq<seq<byte>>, p: seq<byte>)
    ensures Concat(parts + [p]) == Concat(parts) + p
    ensures TotalLength(parts + [p]) == TotalLength(parts) + |p|
  {
    assert (parts + [p])[..|parts|] == parts;
  }

  lemma {:induction false} ConcatPrepend(p: seq<byte>, parts: seq<seq<byte>>)
    ensures Concat([p] + parts) == p + Concat(parts)
    ensures TotalLength([p] + parts) == |p| + TotalLength(parts)
  {
    if parts == [] {
      assert [p] + parts == [p];
      assert [p][..0] == [];
    } else {
      var init := parts[..|parts| - 1];
      var last := parts[|parts| - 1];
      assert parts == init + [last];
      assert [p] + parts == ([p] + init) + [last];
      ConcatPrepend(p, init);
      ConcatAppend([p] + init, last);
      ConcatAppend(init, last);
    }
  }

  // ---------------------------------------------------------------------------
  // The JavaScript string built-ins the pages and the server apply to user input

  /** `toLowerCase` on one character. Besides A-Z, the only character whose lower case
      is a single character of `[a-z0-9]` is KELVIN SIGN (U+212A), whose lower case is 'k';
      every other character is left as it is here. */
  function LowerChar(c: char): char
  {
    if 'A' <= c <= 'Z' then (c as int + 32) as char
    else if c == '\U{212A}' then 'k'
    else c
  }

  function ToLower(s: string): string
  {
    seq(|s|, i requires 0 <= i < |s| => LowerChar(s[i]))
  }

  /** A string over `[a-z0-9]` is unchanged by lower-casing, so an id or token minted
      by the pages reaches the server exactly as it was generated. */
  lemma LowerKeepsLowerAlnum(s: string)
    requires forall i :: 0 <= i < |s| ==> 'a' <= s[i] <= 'z' || '0' <= s[i] <= '9'
    ensures ToLower(s) == s
  {
  }

  /** Upper-case Latin letters become their lower-case forms, so "ABC123" is accepted
      wherever "abc123" is. */
  lemma LowerFoldsUpperCase(s: string)
    requires forall i :: 0 <= i < |s| ==> 'A' <= s[i] <= 'Z' || 'a' <= s[i] <= 'z' || '0' <= s[i] <= '9'
    ensures forall i :: 0 <= i < |s| ==> 'a' <= ToLower(s)[i] <= 'z' || '0' <= ToLower(s)[i] <= '9'
    ensures forall i :: 0 <= i < |s| && 'A' <= s[i] <= 'Z' ==> ToLower(s)[i] as int == s[i] as int + 32
  {
  }

  /** The characters `trim` removes: ECMAScript WhiteSpace and LineTerminator. */
  predicate IsTrimmable(c: char)
  {
    || c == '\t' || c == '\n' || c == '\U{000B}' || c == '\U{000C}' || c == '\r' || c == ' '
    || c == '\U{00A0}' || c == '\U{1680}' || ('\U{2000}' <= c <= '\U{200A}')
    || c == '\U{2028}' || c == '\U{2029}' || c == '\U{202F}' || c == '\U{205F}'
    || c == '\U{3000}' || c == '\U{FEFF}'
  }

  /** Leading trimmable characters removed: the result is a suffix of s, starting with a
      character that is kept, and everything cut off is trimmable. */
  function TrimStart(s: string): (r: string)
    ensures |r| <= |s| && r == s[|s| - |r|..]
    ensures r != [] ==> !IsTrimmable(r[0])
    ensures forall i :: 0 <= i < |s| - |r| ==> IsTrimmable(s[i])
  {
    if s != [] && IsTrimmable(s[0]) then TrimStart(s[1..]) else s
  }

  /** Trailing trimmable characters removed: the result is a prefix of s, ending with a
      character that is kept, and everything cut off is trimmable. */
  function TrimEnd(s: string): (r: string)
    ensures |r| <= |s| && r == s[..|r|]
    ensures r != [] ==> !IsTrimmable(r[|r| - 1])
    ensures forall i :: |r| <= i < |s| ==> IsTrimmable(s[i])
  {
    if s != [] && IsTrimmable(s[|s| - 1]) then TrimEnd(s[..|s| - 1]) else s
  }

  /** `trim`. */
  function Trim(s: string): string
  {
    TrimEnd(TrimStart(s))
  }
}
