/**
 * The output-file naming of OpenPGPCrypto.doAction: encryption appends ".gpg"
 * to the absolute input path, decryption cuts the path at the LAST occurrence
 * of ".gpg" (String.lastIndexOf), wherever in the path that occurrence is.
 */
module OutputPath {
  import opened Wrappers

  /** An absolute file path, as File.getAbsolutePath returns it. */
  type Path = string

  /** GPG_EXT */
  const GpgExt: string := ".gpg"

  /** The direction of a batch: OPEN_PGP_REQUEST_ENCRYPT (3) or OPEN_PGP_REQUEST_DECRYPT (4). */
  datatype Mode = Encrypt | Decrypt

  /** `pat` occurs in `s` starting at index `k`. */
  predicate OccursAt(s: string, pat: string, k: int)
  {
    0 <= k && k + |pat| <= |s| && s[k..k + |pat|] == pat
  }

  predicate Contains(s: string, pat: string)
  {
    exists k :: 0 <= k <= |s| - |pat| && OccursAt(s, pat, k)
  }

  predicate EndsWith(s: string, pat: string)
  {
    |pat| <= |s| && s[|s| - |pat|..] == pat
  }

  /** The largest index `k <= from` at which `pat` occurs in `s`, or -1 when there is none. */
  function LastIndexFrom(s: string, pat: string, from: int): (r: int)
    ensures r == -1 || 0 <= r <= from
    ensures r >= 0 ==> OccursAt(s, pat, r)
    ensures forall j :: r < j <= from ==> !OccursAt(s, pat, j)
    decreases from + 1
  {
    if from < 0 then -1
    else if OccursAt(s, pat, from) then from
    else LastIndexFrom(s, pat, from - 1)
  }

  /** String.lastIndexOf: the start of the last occurrence of `pat` in `s`, or -1. */
  function LastIndexOf(s: string, pat: string): (r: int)
    ensures r >= -1
    ensures r == -1 <==> !Contains(s, pat)
    ensures r >= 0 ==> OccursAt(s, pat, r) && forall j :: r < j ==> !OccursAt(s, pat, j)
  {
    LastIndexFrom(s, pat, |s| - |pat|)
  }

  /** The output of encrypting `p`: `p` followed by ".gpg". */
  function EncryptPath(p: Path): (q: Path)
    ensures |q| == |p| + |GpgExt| && q[..|p|] == p && EndsWith(q, GpgExt)
  {
    p + GpgExt
  }

  /**
   * The output of decrypting `p`: the part of `p` before the last ".gpg".
   * Without any ".gpg" in `p`, substring(0, -1) throws, hence the precondition.
   */
  function DecryptPath(p: Path): (q: Path)
    requires Contains(p, GpgExt)
    ensures |q| + |GpgExt| <= |p| && q == p[..|q|]
    ensures OccursAt(p, GpgExt, |q|)
    ensures forall j :: |q| < j ==> !OccursAt(p, GpgExt, j)
  {
    p[..LastIndexOf(p, GpgExt)]
  }

  /**
   * The output path doAction derives for `p`, or None where the decrypt
   * expression throws: only decryption of a path without ".gpg" has none,
   * and an output path never equals its input path.
   */
  function OutputFor(mode: Mode, p: Path): (o: Option<Path>)
    ensures o.None? <==> mode == Decrypt && !Contains(p, GpgExt)
    ensures o.Some? ==> o.value != p
  {
    match mode
    case Encrypt => Some(EncryptPath(p))
    case Decrypt => if Contains(p, GpgExt) then Some(DecryptPath(p)) else None
  }

  /** Decrypting the name of an encrypted file gives back the original name, for every path. */
  lemma RoundTrip(p: Path)
    ensures Contains(EncryptPath(p), GpgExt)
    ensures DecryptPath(EncryptPath(p)) == p
  {
    var q := EncryptPath(p);
    assert OccursAt(q, GpgExt, |p|);
    var r := DecryptPath(q);
    assert |r| == |p|;
  }

  /** Re-encrypting a decrypted name restores it exactly when the name ends in ".gpg". */
  lemma EncryptAfterDecrypt(p: Path)
    requires Contains(p, GpgExt)
    ensures EncryptPath(DecryptPath(p)) == p <==> EndsWith(p, GpgExt)
  {
  }

  /**
   * The cut is made at the last ".gpg" anywhere in the absolute path: a file
   * without the extension inside a directory whose name has it decrypts to
   * the directory's own path.
   */
  lemma DecryptCutsAtDirectory()
    ensures Contains("/sdcard/keys.gpg/notes", GpgExt)
    ensures DecryptPath("/sdcard/keys.gpg/notes") == "/sdcard/keys"
  {
    var p := "/sdcard/keys.gpg/notes";
    assert OccursAt(p, GpgExt, 12);
    var q := DecryptPath(p);
    forall j | 12 < j <= |p| - |GpgExt|
      ensures !OccursAt(p, GpgExt, j)
    {
      assert p[j] != '.';
      assert p[j..j + |GpgExt|][0] == p[j];
    }
    assert |q| == 12;
  }
}
