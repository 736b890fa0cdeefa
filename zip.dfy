/**
 * The ZIP side: fixed offsets of the fields the embedder patches (PKWARE APPNOTE.TXT section
 * 4.3.12 for the central-directory record, section 4.3.16 for the end of central directory
 * record, EOCD), the per-entry facts the ZIP reader supplies, and the backward EOCD scan.
 */
module Zip {
  import opened Bytes

  /** "relative offset of local header" inside a central-directory record */
  const LOCAL_HEADER_OFFSET: nat := 42
  /** "offset of start of central directory" inside the EOCD */
  const CENTRAL_DIRECTORY_OFFSET_OFFSET: nat := 16
  /** ".ZIP file comment length" inside the EOCD */
  const COMMENT_LENGTH_OFFSET: nat := 20
  const EOCD_SIGNATURE: seq<byte> := [0x50, 0x4B, 0x05, 0x06]
  /** Size of an EOCD record without its comment. */
  const EOCD_SIZE: nat := 22
  /** Size of a central-directory record without its name, extra field and comment. */
  const CENTRAL_RECORD_SIZE: nat := 46

  /**
   * What the ZIP reader reports about one entry: `header_start`, `data_start`,
   * `compressed_size` and `central_header_start`, all absolute positions in the archive.
   */
  datatype Entry = Entry(headerStart: nat, dataStart: nat, compressedSize: nat, centralHeaderStart: nat) {
    /** First byte of the local header. */
    function Start(): nat { headerStart }
    /** One past the last byte of the compressed data. */
    function End(): nat { dataStart + compressedSize }
    /** Position of the record's 4-byte local-header-offset field. */
    function OffsetField(): nat { centralHeaderStart + LOCAL_HEADER_OFFSET }
  }

  /** Position `k` lies in none of the first `n` entries' local-header-offset fields. */
  predicate OutsideOffsetFields(es: seq<Entry>, n: nat, k: int)
    requires n <= |es|
  {
    forall j :: 0 <= j < n ==> k < es[j].OffsetField() || es[j].OffsetField() + 4 <= k
  }

  // ----- start of the central directory -----

  /**
   * The loop's running minimum of `central_header_start` over the first `n` entries, in entry
   * order, starting from `dflt`.
   */
  function MinCentral(es: seq<Entry>, n: nat, dflt: nat): (r: nat)
    requires n <= |es|
    ensures r <= dflt
    decreases n
  {
    if n == 0 then dflt
    else
      var m := MinCentral(es, n - 1, dflt);
      var c := es[n - 1].centralHeaderStart;
      if m > c then c else m
  }

  /**
   * `MinCentral` is the least record start among the first `n` entries, or the default when
   * that is smaller or there are no entries.
   */
  lemma {:induction false} MinCentralSpec(es: seq<Entry>, n: nat, dflt: nat)
    requires n <= |es|
    ensures forall j :: 0 <= j < n ==> MinCentral(es, n, dflt) <= es[j].centralHeaderStart
    ensures MinCentral(es, n, dflt) == dflt || exists j :: 0 <= j < n && MinCentral(es, n, dflt) == es[j].centralHeaderStart
    ensures n == 0 ==> MinCentral(es, n, dflt) == dflt
    decreases n
  {
    if n > 0 {
      MinCentralSpec(es, n - 1, dflt);
    }
  }

  /** Lowering the default afterwards is the same as starting from the lower default. */
  lemma {:induction false} MinCentralClamp(es: seq<Entry>, n: nat, d: nat, e: nat)
    requires n <= |es| && e <= d
    ensures (if MinCentral(es, n, d) > e then e else MinCentral(es, n, d)) == MinCentral(es, n, e)
    decreases n
  {
    if n > 0 {
      MinCentralClamp(es, n - 1, d, e);
    }
  }

  // ----- the backward EOCD scan -----

  /** An EOCD signature sits at `p`. */
  predicate EocdAt(s: seq<byte>, p: nat) {
    p + 4 <= |s| && s[p..p + 4] == EOCD_SIGNATURE
  }

  /** The scan for the EOCD signature from `p` down to 1; 0 when it reaches 0 without a match. */
  function EocdScan(s: seq<byte>, p: nat): (r: nat)
    requires p + 4 <= |s|
    ensures r <= p
    decreases p
  {
    if p == 0 then 0
    else if s[p..p + 4] == EOCD_SIGNATURE then p
    else EocdScan(s, p - 1)
  }

  /** Where the embedder takes the EOCD to start: the scan from the last possible position. */
  function LastEocd(s: seq<byte>): (r: nat)
    requires |s| >= 4
    ensures r + 4 <= |s|
  {
    EocdScan(s, |s| - 4)
  }

  lemma {:induction false} EocdScanSpec(s: seq<byte>, p: nat)
    requires p + 4 <= |s|
    ensures EocdScan(s, p) <= p
    ensures EocdScan(s, p) > 0 ==> EocdAt(s, EocdScan(s, p))
    ensures forall q :: EocdScan(s, p) < q <= p ==> !EocdAt(s, q)
    decreases p
  {
    if p > 0 && s[p..p + 4] != EOCD_SIGNATURE {
      EocdScanSpec(s, p - 1);
    }
  }

  /**
   * `LastEocd` is the last signature position in [1, |s| - 4], or 0 when there is none;
   * position 0 itself is never examined.
   */
  lemma LastEocdSpec(s: seq<byte>)
    requires |s| >= 4
    ensures LastEocd(s) + 4 <= |s|
    ensures LastEocd(s) > 0 ==> EocdAt(s, LastEocd(s))
    ensures forall q :: LastEocd(s) < q ==> !EocdAt(s, q)
  {
    EocdScanSpec(s, |s| - 4);
  }

  /** The scan only depends on the bytes from its result onwards. */
  lemma {:induction false} EocdScanAgree(s: seq<byte>, t: seq<byte>, p: nat)
    requires |s| == |t| && p + 4 <= |s|
    requires forall k :: EocdScan(s, p) <= k < |s| ==> s[k] == t[k]
    ensures EocdScan(t, p) == EocdScan(s, p)
    decreases p
  {
    if p > 0 {
      EocdScanSpec(s, p);
      assert s[p..p + 4] == t[p..p + 4];
      if s[p..p + 4] != EOCD_SIGNATURE {
        EocdScanAgree(s, t, p - 1);
      }
    }
  }

  /** Changing bytes before the EOCD does not move it. */
  lemma LastEocdStable(s: seq<byte>, t: seq<byte>)
    requires |s| == |t| && |s| >= 4
    requires forall k :: LastEocd(s) <= k < |s| ==> s[k] == t[k]
    ensures LastEocd(t) == LastEocd(s)
  {
    EocdScanAgree(s, t, |s| - 4);
  }

  /** The backward scan of `create_archive` over the working copy of the archive. */
  method FindEocd(a: array<byte>) returns (p: nat)
    requires a.Length >= 4
    ensures p == LastEocd(a[..])
    ensures p + 4 <= a.Length && (p > 0 ==> EocdAt(a[..], p))
    ensures forall q :: p < q ==> !EocdAt(a[..], q)
  {
    LastEocdSpec(a[..]);
    p := a.Length - 4;
    while p > 0
      invariant p + 4 <= a.Length
      invariant EocdScan(a[..], p) == LastEocd(a[..])
    {
      if a[p..p + 4] == EOCD_SIGNATURE {
        break;
      }
      p := p - 1;
    }
  }
}
