/**
 * `CheckSum.verify_checksum`: a data file is verified by the companion file
 * stored next to it under the same name plus ".CHECKSUM". The companion holds
 * one line, `<hex digest> <tag>`; the file passes when the SHA-256 digest of
 * its bytes, written in lower-case hexadecimal, equals the first token. The
 * digest itself (FIPS 180-4, section 6.2) is a parameter of the model.
 */
module Checksum {
  import opened Wrappers
  import opened Strings

  type Byte = b: int | 0 <= b < 256

  type Bytes = seq<Byte>

  /** The local disk: the bytes stored at each existing path. */
  type FileSystem = map<string, Bytes>

  const ChecksumSuffix: string := ".CHECKSUM"

  /** Where the companion of a data file is stored. */
  function CompanionPath(dataPath: string): (p: string)
    ensures |p| == |dataPath| + 9
    ensures EndsWith(p, ChecksumSuffix) && p[..|dataPath|] == dataPath
  {
    dataPath + ChecksumSuffix
  }

  // ---- Reading the companion as text ---------------------------------------

  /** Opening the companion in text mode: ASCII bytes are characters, any other byte is a read error. */
  function DecodeAscii(b: Bytes): (r: Option<string>)
    ensures r.Some? ==> |r.value| == |b| && forall i :: 0 <= i < |b| ==> r.value[i] as int == b[i]
    ensures r.Some? <==> forall i :: 0 <= i < |b| ==> b[i] < 128
  {
    if b == [] then Some("")
    else if b[0] >= 128 then None
    else
      assert forall i :: 1 <= i < |b| ==> b[i] == b[1..][i - 1];
      match DecodeAscii(b[1..])
      case None => None
      case Some(rest) => Some([b[0] as char] + rest)
  }

  predicate IsAscii(s: string)
  {
    forall i :: 0 <= i < |s| ==> s[i] as int < 128
  }

  /** The bytes that store ASCII text. */
  function EncodeAscii(s: string): (b: Bytes)
    requires IsAscii(s)
    ensures |b| == |s|
  {
    seq(|s|, i requires 0 <= i < |s| => s[i] as int as Byte)
  }

  /** Text written as ASCII reads back unchanged. */
  lemma DecodeEncode(s: string)
    requires IsAscii(s)
    ensures DecodeAscii(EncodeAscii(s)) == Some(s)
  {
    var r := DecodeAscii(EncodeAscii(s));
    assert r.Some?;
    assert r.value == s;
  }

  // ---- `text.strip().split()` ------------------------------------------------

  /** The ASCII characters `str.isspace` accepts: tab to carriage return, the four separators 0x1C-0x1F and space. */
  predicate IsSpace(c: char)
  {
    ('\t' <= c <= '\r') || ('\U{1c}' <= c <= '\U{1f}') || c == ' '
  }

  predicate NoSpace(s: string)
  {
    forall i :: 0 <= i < |s| ==> !IsSpace(s[i])
  }

  predicate AllSpace(s: string)
  {
    forall i :: 0 <= i < |s| ==> IsSpace(s[i])
  }

  /** `s.lstrip()`. */
  function StripLeft(s: string): string
    decreases |s|
  {
    if s != [] && IsSpace(s[0]) then StripLeft(s[1..]) else s
  }

  /** `s.rstrip()`. */
  function StripRight(s: string): string
    decreases |s|
  {
    if s != [] && IsSpace(s[|s| - 1]) then StripRight(s[..|s| - 1]) else s
  }

  /** `s.strip()`. */
  function Strip(s: string): string
  {
    StripRight(StripLeft(s))
  }

  /** The leading run of non-space characters. */
  function Word(s: string): (w: string)
    ensures |w| <= |s| && w == s[..|w|] && NoSpace(w)
    ensures |w| < |s| ==> IsSpace(s[|w|])
    decreases |s|
  {
    if s == [] || IsSpace(s[0]) then "" else [s[0]] + Word(s[1..])
  }

  /** `s.split()`: the maximal runs of non-space characters, in order. */
  function Tokens(s: string): (ts: seq<string>)
    ensures forall k :: 0 <= k < |ts| ==> ts[k] != "" && NoSpace(ts[k])
    decreases |s|
  {
    if s == [] then []
    else if IsSpace(s[0]) then Tokens(s[1..])
    else
      var w := Word(s);
      [w] + Tokens(s[|w|..])
  }

  // ---- The check -------------------------------------------------------------

  /** Reading the data file raises when it does not exist: the only way the check fails other than returning False. */
  datatype VerifyError = DataFileMissing

  /**
   * The verdict on `dataPath` given the files on disk and the hex-digest
   * function: False when the companion is missing, unreadable or not exactly
   * two tokens, then the comparison of the digest with the first token.
   */
  function VerifyChecksum(fs: FileSystem, dataPath: string, hexDigest: Bytes -> string): (r: Result<bool, VerifyError>)
    ensures CompanionPath(dataPath) !in fs ==> r == Ok(false)
    ensures r.Err? ==> dataPath !in fs
    ensures r == Ok(true) ==> dataPath in fs && CompanionPath(dataPath) in fs
  {
    var companion := CompanionPath(dataPath);
    if companion !in fs then Ok(false)
    else
      match DecodeAscii(fs[companion])
      case None => Ok(false)
      case Some(text) =>
        var tokens := Tokens(Strip(text));
        if |tokens| != 2 then Ok(false)
        else if dataPath !in fs then Err(DataFileMissing)
        else Ok(hexDigest(fs[dataPath]) == tokens[0])
  }

  // ---- Properties --------------------------------------------------------------

  /** Leading whitespace does not change the tokens. */
  lemma {:induction false} TokensSkipSpace(ws: string, s: string)
    requires AllSpace(ws)
    ensures Tokens(ws + s) == Tokens(s)
    decreases |ws|
  {
    if ws != [] {
      assert (ws + s)[1..] == ws[1..] + s;
      TokensSkipSpace(ws[1..], s);
    } else {
      assert ws + s == s;
    }
  }

  /** A word followed by nothing or by whitespace is read whole. */
  lemma {:induction false} WordOf(w: string, rest: string)
    requires NoSpace(w)
    requires rest == [] || IsSpace(rest[0])
    ensures Word(w + rest) == w
    decreases |w|
  {
    if w == [] {
      assert w + rest == rest;
    } else {
      assert (w + rest)[1..] == w[1..] + rest;
      WordOf(w[1..], rest);
    }
  }

  /** Two words separated by whitespace are two tokens. */
  lemma TwoTokens(h: string, sep: string, tag: string)
    requires h != "" && NoSpace(h) && tag != "" && NoSpace(tag)
    requires sep != "" && AllSpace(sep)
    ensures Tokens(h + sep + tag) == [h, tag]
  {
    var s := h + sep + tag;
    WordOf(h, sep + tag);
    assert s == h + (sep + tag);
    assert s[|h|..] == sep + tag;
    TokensSkipSpace(sep, tag);
    WordOf(tag, []);
    assert tag + [] == tag;
    assert tag[|tag|..] == [];
  }

  /** Stripping text that starts and ends with a non-space character and is followed by whitespace leaves the text. */
  lemma StripTrailing(core: string, tail: string)
    requires core != "" && !IsSpace(core[0]) && !IsSpace(core[|core| - 1])
    requires AllSpace(tail)
    ensures Strip(core + tail) == core
  {
    assert StripLeft(core + tail) == core + tail;
    StripRightOf(core, tail);
  }

  lemma {:induction false} StripRightOf(core: string, tail: string)
    requires core != "" && !IsSpace(core[|core| - 1])
    requires AllSpace(tail)
    ensures StripRight(core + tail) == core
    decreases |tail|
  {
    if tail == [] {
      assert core + tail == core;
    } else {
      var s := core + tail;
      assert s[..|s| - 1] == core + tail[..|tail| - 1];
      StripRightOf(core, tail[..|tail| - 1]);
    }
  }

  /** The companion text a publisher writes: digest, whitespace, tag, then optional trailing whitespace. */
  function CompanionText(digest: string, sep: string, tag: string, tail: string): string
  {
    digest + sep + tag + tail
  }

  /** Reading a companion written as digest, whitespace and tag yields exactly those two tokens. */
  lemma CompanionTokens(digest: string, sep: string, tag: string, tail: string)
    requires digest != "" && NoSpace(digest) && tag != "" && NoSpace(tag)
    requires sep != "" && AllSpace(sep) && AllSpace(tail)
    ensures Tokens(Strip(CompanionText(digest, sep, tag, tail))) == [digest, tag]
  {
    var core := digest + sep + tag;
    assert core[0] == digest[0];
    assert core[|core| - 1] == tag[|tag| - 1];
    assert CompanionText(digest, sep, tag, tail) == core + tail;
    StripTrailing(core, tail);
    TwoTokens(digest, sep, tag);
  }

  /**
   * Integrity round trip: a data file whose companion carries the digest of
   * its own bytes, followed by whitespace and any tag, passes.
   */
  lemma MatchingCompanionVerifies(fs: FileSystem, dataPath: string, hexDigest: Bytes -> string,
                                  sep: string, tag: string, tail: string)
    requires dataPath in fs
    requires var d := hexDigest(fs[dataPath]); d != "" && NoSpace(d)
    requires tag != "" && NoSpace(tag) && sep != "" && AllSpace(sep) && AllSpace(tail)
    requires IsAscii(CompanionText(hexDigest(fs[dataPath]), sep, tag, tail))
    requires CompanionPath(dataPath) in fs
    requires fs[CompanionPath(dataPath)] == EncodeAscii(CompanionText(hexDigest(fs[dataPath]), sep, tag, tail))
    ensures VerifyChecksum(fs, dataPath, hexDigest) == Ok(true)
  {
    var text := CompanionText(hexDigest(fs[dataPath]), sep, tag, tail);
    DecodeEncode(text);
    CompanionTokens(hexDigest(fs[dataPath]), sep, tag, tail);
  }

  /** A companion whose first token differs from the digest rejects the file, whatever its tag. */
  lemma MismatchingCompanionFails(fs: FileSystem, dataPath: string, hexDigest: Bytes -> string,
                                  claimed: string, sep: string, tag: string, tail: string)
    requires dataPath in fs
    requires claimed != "" && NoSpace(claimed) && claimed != hexDigest(fs[dataPath])
    requires tag != "" && NoSpace(tag) && sep != "" && AllSpace(sep) && AllSpace(tail)
    requires IsAscii(CompanionText(claimed, sep, tag, tail))
    requires CompanionPath(dataPath) in fs
    requires fs[CompanionPath(dataPath)] == EncodeAscii(CompanionText(claimed, sep, tag, tail))
    ensures VerifyChecksum(fs, dataPath, hexDigest) == Ok(false)
  {
    DecodeEncode(CompanionText(claimed, sep, tag, tail));
    CompanionTokens(claimed, sep, tag, tail);
  }

  /**
   * Writing a well-formed companion `claimed`, whitespace, tag next to a data
   * file makes the verdict the comparison of the digest with `claimed`, or the
   * missing-file error when the data file is absent.
   */
  lemma WrittenCompanionVerdict(fs: FileSystem, dataPath: string, hexDigest: Bytes -> string,
                                claimed: string, sep: string, tag: string)
    requires claimed != "" && NoSpace(claimed) && sep != "" && AllSpace(sep)
    requires tag != "" && NoSpace(tag)
    requires IsAscii(CompanionText(claimed, sep, tag, ""))
    ensures VerifyChecksum(fs[CompanionPath(dataPath) := EncodeAscii(CompanionText(claimed, sep, tag, ""))], dataPath, hexDigest)
         == if dataPath in fs then Ok(hexDigest(fs[dataPath]) == claimed) else Err(DataFileMissing)
  {
    DecodeEncode(CompanionText(claimed, sep, tag, ""));
    CompanionTokens(claimed, sep, tag, "");
    assert CompanionPath(dataPath) != dataPath;
  }

  /** The tag never influences the verdict: only the first of the two tokens is compared. */
  lemma LabelIsIgnored(fs: FileSystem, dataPath: string, hexDigest: Bytes -> string,
                       claimed: string, sep: string, tag1: string, tag2: string)
    requires claimed != "" && NoSpace(claimed) && sep != "" && AllSpace(sep)
    requires tag1 != "" && NoSpace(tag1) && tag2 != "" && NoSpace(tag2)
    requires IsAscii(CompanionText(claimed, sep, tag1, "")) && IsAscii(CompanionText(claimed, sep, tag2, ""))
    ensures VerifyChecksum(fs[CompanionPath(dataPath) := EncodeAscii(CompanionText(claimed, sep, tag1, ""))], dataPath, hexDigest)
         == VerifyChecksum(fs[CompanionPath(dataPath) := EncodeAscii(CompanionText(claimed, sep, tag2, ""))], dataPath, hexDigest)
  {
    WrittenCompanionVerdict(fs, dataPath, hexDigest, claimed, sep, tag1);
    WrittenCompanionVerdict(fs, dataPath, hexDigest, claimed, sep, tag2);
  }

  /** A companion with one token, or three, rejects the file. */
  lemma TokenCountMustBeTwo(fs: FileSystem, dataPath: string, hexDigest: Bytes -> string)
    requires CompanionPath(dataPath) in fs
    requires DecodeAscii(fs[CompanionPath(dataPath)]).Some?
    requires |Tokens(Strip(DecodeAscii(fs[CompanionPath(dataPath)]).value))| != 2
    ensures VerifyChecksum(fs, dataPath, hexDigest) == Ok(false)
  {
  }

  /** A lower-case hexadecimal digit string. */
  predicate IsLowerHex(s: string)
  {
    forall i :: 0 <= i < |s| ==> ('0' <= s[i] <= '9' || 'a' <= s[i] <= 'f')
  }

  /** The comparison is case-sensitive: an upper-case hex letter in the claimed digest never matches `hexdigest()`. */
  lemma UpperCaseDigestFails(fs: FileSystem, dataPath: string, hexDigest: Bytes -> string,
                             claimed: string, sep: string, tag: string, k: nat)
    requires dataPath in fs && IsLowerHex(hexDigest(fs[dataPath]))
    requires k < |claimed| && 'A' <= claimed[k] <= 'F'
    requires NoSpace(claimed) && tag != "" && NoSpace(tag) && sep != "" && AllSpace(sep)
    requires IsAscii(CompanionText(claimed, sep, tag, ""))
    requires CompanionPath(dataPath) in fs
    requires fs[CompanionPath(dataPath)] == EncodeAscii(CompanionText(claimed, sep, tag, ""))
    ensures VerifyChecksum(fs, dataPath, hexDigest) == Ok(false)
  {
    var d := hexDigest(fs[dataPath]);
    assert claimed != d by {
      if k < |d| {
        assert !('A' <= d[k] <= 'F');
      }
    }
    MismatchingCompanionFails(fs, dataPath, hexDigest, claimed, sep, tag, "");
  }

  /** The verdict depends on the disk only through the data file and its companion. */
  lemma VerdictIsLocal(fs1: FileSystem, fs2: FileSystem, dataPath: string, hexDigest: Bytes -> string)
    requires dataPath in fs1 <==> dataPath in fs2
    requires dataPath in fs1 ==> fs1[dataPath] == fs2[dataPath]
    requires CompanionPath(dataPath) in fs1 <==> CompanionPath(dataPath) in fs2
    requires CompanionPath(dataPath) in fs1 ==> fs1[CompanionPath(dataPath)] == fs2[CompanionPath(dataPath)]
    ensures VerifyChecksum(fs1, dataPath, hexDigest) == VerifyChecksum(fs2, dataPath, hexDigest)
  {
  }
}
