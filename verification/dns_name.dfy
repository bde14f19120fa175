/** Domain-name decoding of dns.c (parse_name): literal labels, compression
    pointers (section 4.1.4 of RFC 1035) and the 256-byte name buffer.

    The C loop is not guaranteed to stop: a pointer only has to target a
    position below the name's ORIGINAL start, so pointers below the start can
    form a cycle. The walk is therefore bounded by `fuel`, one unit per loop
    iteration that reads a label or a pointer, and running out of fuel is the
    outcome `NameDiverges`: the C loop would still be running. */
module DnsName {
  import opened Bytes

  /** Size of the C name buffer `char name[256]`, terminator included. */
  const NameCapacity: nat := 256
  /** The root label: a zero length byte ends a name. */
  const RootLabel: byte := 0
  /** Separator written after each label ('.'). */
  const Dot: byte := 0x2E
  /** Longest label a standard encoder writes (section 2.3.4 of RFC 1035). */
  const MaxLabel: nat := 63

  /** Result of parse_name: the C return value 0 (`NameFailed`), a non-zero
      wire length with the decoded text, or a loop that has not stopped. */
  datatype NameOutcome =
    | NameFailed
    | NameDecoded(wireLength: nat, name: seq<byte>)
    | NameDiverges

  /** A length byte whose top two bits are set starts a compression pointer. */
  predicate IsPointerByte(b: byte)
  {
    b >= 0xC0
  }

  /** The 14-bit offset of a compression pointer: the low six bits of `b`,
      then `next`. */
  function PointerTarget(b: byte, next: byte): (t: nat)
    ensures t < 0x4000
  {
    (b as nat % 64) * 256 + next as nat
  }

  /** The two definitions above are the mask tests of parse_name,
      `(b & 0xc0) == 0xc0` and `((b & 0x3f) << 8) | next`. */
  lemma PointerByteBits(x: bv8)
    ensures IsPointerByte(x as byte) <==> x & 0xC0 == 0xC0
  {
  }

  lemma PointerTargetBits(x: bv8, y: bv8)
    ensures PointerTarget(x as byte, y as byte) == ((((x & 0x3F) as bv16) << 8) | (y as bv16)) as nat
  {
    var hi := (x & 0x3F) as bv16;
    var lo := y as bv16;
    LowSixBits(x);
    ShiftOrIsSum(hi, lo);
    WidenSum(hi, lo);
  }

  /** Masking with 0x3f keeps the value modulo 64. */
  lemma LowSixBits(x: bv8)
    ensures (x & 0x3F) as nat == x as nat % 64
  {
  }

  /** Shifting six bits left by 8 and or-ing in a byte adds without carries. */
  lemma ShiftOrIsSum(hi: bv16, lo: bv16)
    requires hi < 64 && lo < 256
    ensures (hi << 8) | lo == hi * 256 + lo
  {
  }

  /** That sum does not overflow 16 bits. */
  lemma WidenSum(hi: bv16, lo: bv16)
    requires hi < 64 && lo < 256
    ensures (hi * 256 + lo) as nat == hi as nat * 256 + lo as nat
  {
  }

  /** Length of the C string in `s`: the bytes before its first NUL. */
  function CStrLen(s: seq<byte>): (n: nat)
    ensures n <= |s|
    ensures 0 !in s[..n] && (n < |s| ==> s[n] == 0)
  {
    if |s| == 0 || s[0] == 0 then 0 else 1 + CStrLen(s[1..])
  }

  /** strlen sees every byte of `s` exactly when `s` holds no NUL. */
  lemma {:induction false} CStrLenNulFree(s: seq<byte>)
    ensures CStrLen(s + [0]) == |s| <==> 0 !in s
  {
    if |s| > 0 {
      assert (s + [0])[1..] == s[1..] + [0];
      CStrLenNulFree(s[1..]);
      assert 0 in s <==> s[0] == 0 || 0 in s[1..];
    }
  }

  /** What parse_name does once the loop has stopped: drop the trailing dot,
      reject a name that strlen would cut short, and pick the wire length. A
      name that only followed pointers to a root byte writes nothing into the
      C buffer; it is modelled as the empty name. */
  function FinishName(out: seq<byte>, wirelen: nat): (r: NameOutcome)
    requires |out| <= NameCapacity
    ensures !r.NameDiverges?
    ensures r.NameDecoded? ==> |r.name| < NameCapacity && 0 !in r.name && r.wireLength > 0
    ensures r.NameDecoded? && wirelen != 0 ==> r.wireLength == wirelen
    ensures r.NameDecoded? && wirelen == 0 ==> r.wireLength == |out| + 1
    ensures |out| > 0 ==> (r.NameDecoded? <==> 0 !in out[..|out| - 1])
    ensures |out| == 0 ==> (r.NameDecoded? <==> wirelen != 0)
  {
    if |out| > 0 then
      var name := out[..|out| - 1];
      CStrLenNulFree(name);
      if CStrLen(name + [0]) != |out| - 1 then NameFailed
      else NameDecoded(if wirelen != 0 then wirelen else |out| + 1, name)
    else if wirelen != 0 then NameDecoded(wirelen, [])
    else NameFailed
  }

  /** The loop of parse_name. `orig` is the name's starting offset, `out`
      the bytes written so far (labels each followed by a dot) and `wirelen`
      the wire length frozen at the first pointer, 0 before any. */
  function NameWalk(buf: seq<byte>, orig: nat, offset: nat, out: seq<byte>,
                    wirelen: nat, fuel: nat): (r: NameOutcome)
    requires |out| <= NameCapacity && wirelen <= NameCapacity + 2
    ensures r.NameDecoded? ==> |r.name| < NameCapacity && 0 !in r.name
    ensures r.NameDecoded? ==> 0 < r.wireLength <= NameCapacity + 2
    ensures r.NameDecoded? && wirelen != 0 ==> r.wireLength == wirelen
    decreases fuel
  {
    if offset >= |buf| || buf[offset] == RootLabel then FinishName(out, wirelen)
    else if fuel == 0 then NameDiverges
    else if IsPointerByte(buf[offset]) then
      if |buf| - offset < 2 then NameFailed
      else
        var target := PointerTarget(buf[offset], buf[offset + 1]);
        if target >= orig then NameFailed
        else NameWalk(buf, orig, target, out, if wirelen == 0 then |out| + 2 else wirelen, fuel - 1)
    else
      var length := buf[offset] as nat;
      var start := offset + 1;
      if |buf| - start < length || |out| + length + 1 > NameCapacity then NameFailed
      else NameWalk(buf, orig, start + length, out + buf[start..start + length] + [Dot], wirelen, fuel - 1)
  }

  /** parse_name(buf, buflen, offset, name): the walk starts at the name's
      own offset with nothing written and no pointer seen. A name that starts
      at or past the end of the buffer, or at a root byte, is rejected. */
  function ParseName(buf: seq<byte>, offset: nat, fuel: nat): (r: NameOutcome)
    ensures r.NameDecoded? ==> |r.name| < NameCapacity && 0 !in r.name
    ensures r.NameDecoded? ==> 1 <= r.wireLength <= NameCapacity + 2
    ensures offset >= |buf| || buf[offset] == RootLabel ==> r == NameFailed
  {
    NameWalk(buf, offset, offset, [], 0, fuel)
  }

  // ---------------------------------------------------------------------
  // Single steps of the loop.

  /** The loop stops at the end of the buffer or at a root byte. */
  lemma ExitStep(buf: seq<byte>, orig: nat, offset: nat, out: seq<byte>, wirelen: nat, fuel: nat)
    requires |out| <= NameCapacity && wirelen <= NameCapacity + 2
    requires offset >= |buf| || buf[offset] == RootLabel
    ensures NameWalk(buf, orig, offset, out, wirelen, fuel) == FinishName(out, wirelen)
  {
  }

  /** Out of fuel before the loop stopped. */
  lemma ZeroFuel(buf: seq<byte>, orig: nat, offset: nat, out: seq<byte>, wirelen: nat)
    requires |out| <= NameCapacity && wirelen <= NameCapacity + 2
    requires offset < |buf| && buf[offset] != RootLabel
    ensures NameWalk(buf, orig, offset, out, wirelen, 0) == NameDiverges
  {
  }

  /** A literal label that fits is copied with a dot after it. */
  lemma LiteralStep(buf: seq<byte>, orig: nat, offset: nat, out: seq<byte>, wirelen: nat, fuel: nat)
    requires |out| <= NameCapacity && wirelen <= NameCapacity + 2
    requires offset < |buf| && buf[offset] != RootLabel && !IsPointerByte(buf[offset]) && fuel > 0
    requires offset + 1 + buf[offset] as nat <= |buf|
    requires |out| + buf[offset] as nat + 1 <= NameCapacity
    ensures NameWalk(buf, orig, offset, out, wirelen, fuel)
            == NameWalk(buf, orig, offset + 1 + buf[offset] as nat,
                        out + buf[offset + 1..offset + 1 + buf[offset] as nat] + [Dot], wirelen, fuel - 1)
  {
  }

  /** A pointer below the original start redirects the walk and freezes the
      wire length at the first pointer. */
  lemma PointerStep(buf: seq<byte>, orig: nat, offset: nat, out: seq<byte>, wirelen: nat, fuel: nat)
    requires |out| <= NameCapacity && wirelen <= NameCapacity + 2
    requires offset + 1 < |buf| && IsPointerByte(buf[offset]) && fuel > 0
    requires PointerTarget(buf[offset], buf[offset + 1]) < orig
    ensures NameWalk(buf, orig, offset, out, wirelen, fuel)
            == NameWalk(buf, orig, PointerTarget(buf[offset], buf[offset + 1]), out,
                        if wirelen == 0 then |out| + 2 else wirelen, fuel - 1)
  {
  }

  /** The pointer rule: a pointer with fewer than two bytes left, or whose
      target is at or beyond the name's original start, fails the name. */
  lemma BadPointerFails(buf: seq<byte>, orig: nat, offset: nat, out: seq<byte>, wirelen: nat, fuel: nat)
    requires |out| <= NameCapacity && wirelen <= NameCapacity + 2
    requires offset < |buf| && IsPointerByte(buf[offset]) && fuel > 0
    requires offset + 1 == |buf| || PointerTarget(buf[offset], buf[offset + 1]) >= orig
    ensures NameWalk(buf, orig, offset, out, wirelen, fuel) == NameFailed
  {
  }

  /** A literal label longer than the bytes left, or one that would push the
      name past 256 bytes, fails the name. */
  lemma OversizedLabelFails(buf: seq<byte>, orig: nat, offset: nat, out: seq<byte>, wirelen: nat, fuel: nat)
    requires |out| <= NameCapacity && wirelen <= NameCapacity + 2
    requires offset < |buf| && buf[offset] != RootLabel && !IsPointerByte(buf[offset]) && fuel > 0
    requires offset + 1 + buf[offset] as nat > |buf| || |out| + buf[offset] as nat + 1 > NameCapacity
    ensures NameWalk(buf, orig, offset, out, wirelen, fuel) == NameFailed
  {
  }

  /** A name that is just the root byte, with no pointer, is rejected:
      parse_name returns 0 for it. */
  lemma RootOnlyFails(buf: seq<byte>, offset: nat, fuel: nat)
    requires offset < |buf| && buf[offset] == RootLabel
    ensures ParseName(buf, offset, fuel) == NameFailed
  {
  }

  // ---------------------------------------------------------------------
  // Reference encoding of an uncompressed name (section 3.1 of RFC 1035).

  predicate ValidLabels(labels: seq<seq<byte>>)
  {
    forall i :: 0 <= i < |labels| ==> 1 <= |labels[i]| <= MaxLabel
  }

  predicate NulFreeLabels(labels: seq<seq<byte>>)
  {
    forall i :: 0 <= i < |labels| ==> 0 !in labels[i]
  }

  /** Each label as a length byte followed by its bytes, without the root. */
  function EncodeLabels(labels: seq<seq<byte>>): (b: seq<byte>)
    requires ValidLabels(labels)
    decreases |labels|
  {
    if |labels| == 0 then []
    else [|labels[0]| as byte] + labels[0] + EncodeLabels(labels[1..])
  }

  /** The uncompressed wire form of a name: its labels and the root byte. */
  function EncodeName(labels: seq<seq<byte>>): (b: seq<byte>)
    requires ValidLabels(labels)
  {
    EncodeLabels(labels) + [RootLabel]
  }

  /** The labels, each followed by a dot: what parse_name writes into its buffer. */
  function Dotted(labels: seq<seq<byte>>): (b: seq<byte>)
    decreases |labels|
  {
    if |labels| == 0 then [] else labels[0] + [Dot] + Dotted(labels[1..])
  }

  /** The textual name: the labels separated by dots, no trailing dot. */
  function Join(labels: seq<seq<byte>>): (b: seq<byte>)
    decreases |labels|
  {
    if |labels| == 0 then []
    else if |labels| == 1 then labels[0]
    else labels[0] + [Dot] + Join(labels[1..])
  }

  lemma {:induction false} DottedIsJoinDot(labels: seq<seq<byte>>)
    requires |labels| > 0
    ensures Dotted(labels) == Join(labels) + [Dot]
    decreases |labels|
  {
    if |labels| > 1 {
      DottedIsJoinDot(labels[1..]);
    }
  }

  lemma {:induction false} DottedAppend(a: seq<seq<byte>>, b: seq<seq<byte>>)
    ensures Dotted(a + b) == Dotted(a) + Dotted(b)
    decreases |a|
  {
    if |a| == 0 {
      assert a + b == b;
    } else {
      assert (a + b)[0] == a[0] && (a + b)[1..] == a[1..] + b;
      DottedAppend(a[1..], b);
      calc {
        Dotted(a + b);
        a[0] + [Dot] + Dotted(a[1..] + b);
        a[0] + [Dot] + (Dotted(a[1..]) + Dotted(b));
        Dotted(a) + Dotted(b);
      }
    }
  }

  /** The joined name holds a NUL exactly when some label does. */
  lemma {:induction false} JoinNulFree(labels: seq<seq<byte>>)
    ensures 0 !in Join(labels) <==> NulFreeLabels(labels)
    decreases |labels|
  {
    if |labels| > 1 {
      JoinNulFree(labels[1..]);
      var j := labels[0] + [Dot] + Join(labels[1..]);
      assert 0 in j <==> 0 in labels[0] || 0 in Join(labels[1..]);
      if NulFreeLabels(labels[1..]) && 0 !in labels[0] {
        forall i | 0 <= i < |labels|
          ensures 0 !in labels[i]
        {
          if i > 0 {
            assert labels[i] == labels[1..][i - 1];
          }
        }
      }
      if NulFreeLabels(labels) {
        forall i | 0 <= i < |labels[1..]|
          ensures 0 !in labels[1..][i]
        {
          assert labels[1..][i] == labels[i + 1];
        }
      }
    }
  }

  /** The dotted form is one byte longer than the text. */
  lemma DottedLength(labels: seq<seq<byte>>)
    requires |labels| > 0
    ensures |Dotted(labels)| == |Join(labels)| + 1
  {
    DottedIsJoinDot(labels);
  }

  /** The length byte of a label of 1 to 63 bytes is read back as that
      length, and is neither the root nor a pointer. */
  lemma LengthByte(n: nat)
    requires 1 <= n <= MaxLabel
    ensures (n as byte) as nat == n
    ensures n as byte != RootLabel && !IsPointerByte(n as byte)
  {
  }

  lemma EncodeLabelsHead(labels: seq<seq<byte>>)
    requires ValidLabels(labels) && |labels| > 0
    ensures ValidLabels(labels[1..])
    ensures EncodeLabels(labels)
            == [|labels[0]| as byte] + labels[0] + EncodeLabels(labels[1..])
  {
    assert forall i :: 0 <= i < |labels[1..]| ==> labels[1..][i] == labels[i + 1];
  }

  /** Encoded labels take as many bytes as their dotted text. */
  lemma {:induction false} EncodeLabelsLength(labels: seq<seq<byte>>)
    requires ValidLabels(labels)
    ensures |EncodeLabels(labels)| == |Dotted(labels)|
    decreases |labels|
  {
    if |labels| > 0 {
      EncodeLabelsHead(labels);
      EncodeLabelsLength(labels[1..]);
    }
  }

  /** Where encoded labels are held, the first label's length byte and
      bytes come first, then the remaining labels. */
  lemma AtLabels(buf: seq<byte>, offset: nat, labels: seq<seq<byte>>)
    requires ValidLabels(labels) && |labels| > 0
    requires At(buf, offset, EncodeLabels(labels))
    ensures ValidLabels(labels[1..])
    ensures offset < |buf| && buf[offset] as nat == |labels[0]|
    ensures buf[offset] != RootLabel && !IsPointerByte(buf[offset])
    ensures offset + 1 + |labels[0]| <= |buf|
    ensures buf[offset + 1..offset + 1 + |labels[0]|] == labels[0]
    ensures At(buf, offset + 1 + |labels[0]|, EncodeLabels(labels[1..]))
  {
    hide EncodeLabels;
    var l := labels[0];
    EncodeLabelsHead(labels);
    LengthByte(|l|);
    AtConcat(buf, offset, [|l| as byte] + l, EncodeLabels(labels[1..]));
    AtConcat(buf, offset, [|l| as byte], l);
    AtIndex(buf, offset, [|l| as byte], 0);
  }

  /** The first encoded label is copied in one loop iteration. */
  lemma WalkFirstLabel(buf: seq<byte>, orig: nat, offset: nat, out: seq<byte>,
                       wirelen: nat, fuel: nat, labels: seq<seq<byte>>)
    requires ValidLabels(labels) && |labels| > 0
    requires |out| + |labels[0]| + 1 <= NameCapacity && wirelen <= NameCapacity + 2
    requires At(buf, offset, EncodeLabels(labels))
    requires fuel > 0
    ensures ValidLabels(labels[1..])
    ensures At(buf, offset + 1 + |labels[0]|, EncodeLabels(labels[1..]))
    ensures |EncodeLabels(labels)| == 1 + |labels[0]| + |EncodeLabels(labels[1..])|
    ensures NameWalk(buf, orig, offset, out, wirelen, fuel)
            == NameWalk(buf, orig, offset + 1 + |labels[0]|, out + labels[0] + [Dot], wirelen, fuel - 1)
  {
    AtLabels(buf, offset, labels);
    EncodeLabelsHead(labels);
    LiteralStep(buf, orig, offset, out, wirelen, fuel);
  }

  /** Walking over encoded labels copies them, one unit of fuel per label. */
  lemma {:induction false} WalkLabels(buf: seq<byte>, orig: nat, offset: nat, out: seq<byte>,
                                      wirelen: nat, fuel: nat, labels: seq<seq<byte>>)
    requires ValidLabels(labels)
    requires |out| + |Dotted(labels)| <= NameCapacity && wirelen <= NameCapacity + 2
    requires At(buf, offset, EncodeLabels(labels))
    requires fuel >= |labels|
    ensures NameWalk(buf, orig, offset, out, wirelen, fuel)
            == NameWalk(buf, orig, offset + |EncodeLabels(labels)|, out + Dotted(labels),
                        wirelen, fuel - |labels|)
    decreases |labels|
  {
    hide NameWalk;
    if |labels| > 0 {
      var l := labels[0];
      var rest := labels[1..];
      var next := offset + 1 + |l|;
      var out' := out + l + [Dot];
      assert Dotted(labels) == l + [Dot] + Dotted(rest);
      WalkFirstLabel(buf, orig, offset, out, wirelen, fuel, labels);
      WalkLabels(buf, orig, next, out', wirelen, fuel - 1, rest);
      assert next + |EncodeLabels(rest)| == offset + |EncodeLabels(labels)|;
      assert out' + Dotted(rest) == out + Dotted(labels);
      assert fuel - 1 - |rest| == fuel - |labels|;
    } else {
      assert EncodeLabels(labels) == [] && Dotted(labels) == [];
      assert out + Dotted(labels) == out;
    }
  }

  /** Walking over an uncompressed name ends with its labels appended. */
  lemma WalkEncodedName(buf: seq<byte>, orig: nat, offset: nat, out: seq<byte>, wirelen: nat,
                        labels: seq<seq<byte>>, fuel: nat)
    requires ValidLabels(labels)
    requires |out| + |Dotted(labels)| <= NameCapacity && wirelen <= NameCapacity + 2
    requires At(buf, offset, EncodeName(labels))
    requires fuel >= |labels|
    ensures NameWalk(buf, orig, offset, out, wirelen, fuel) == FinishName(out + Dotted(labels), wirelen)
  {
    hide NameWalk;
    var enc := EncodeLabels(labels);
    AtConcat(buf, offset, enc, [RootLabel]);
    AtIndex(buf, offset + |enc|, [RootLabel], 0);
    WalkLabels(buf, orig, offset, out, wirelen, fuel, labels);
    ExitStep(buf, orig, offset + |enc|, out + Dotted(labels), wirelen, fuel - |labels|);
  }

  /** FinishName on the dotted labels of a whole name. */
  lemma FinishLabels(labels: seq<seq<byte>>, wirelen: nat)
    requires |labels| > 0 && |Dotted(labels)| <= NameCapacity
    ensures NulFreeLabels(labels) ==>
              FinishName(Dotted(labels), wirelen)
              == NameDecoded(if wirelen != 0 then wirelen else |Dotted(labels)| + 1, Join(labels))
    ensures !NulFreeLabels(labels) ==> FinishName(Dotted(labels), wirelen) == NameFailed
  {
    var out := Dotted(labels);
    DottedIsJoinDot(labels);
    assert out[..|out| - 1] == Join(labels);
    JoinNulFree(labels);
  }

  /** Decoding an uncompressed name at `offset` gives its labels joined by
      dots and its full wire length, or fails exactly when a label carries a
      NUL byte. */
  lemma ParseEncodedName(buf: seq<byte>, offset: nat, labels: seq<seq<byte>>, fuel: nat)
    requires ValidLabels(labels) && |labels| > 0
    requires |Join(labels)| < NameCapacity
    requires At(buf, offset, EncodeName(labels))
    requires fuel >= |labels|
    ensures NulFreeLabels(labels) ==>
              ParseName(buf, offset, fuel) == NameDecoded(|EncodeName(labels)|, Join(labels))
    ensures !NulFreeLabels(labels) ==> ParseName(buf, offset, fuel) == NameFailed
  {
    hide NameWalk;
    DottedLength(labels);
    EncodeLabelsLength(labels);
    WalkEncodedName(buf, offset, offset, [], 0, labels, fuel);
    assert [] + Dotted(labels) == Dotted(labels);
    FinishLabels(labels, 0);
  }

  /** The labels run to the end of the buffer with no root byte: parse_name
      still succeeds, and its wire length points one byte past the end. */
  lemma ParseUnterminatedName(buf: seq<byte>, offset: nat, labels: seq<seq<byte>>, fuel: nat)
    requires ValidLabels(labels) && |labels| > 0 && NulFreeLabels(labels)
    requires |Join(labels)| < NameCapacity
    requires offset <= |buf| && buf[offset..] == EncodeLabels(labels)
    requires fuel >= |labels|
    ensures ParseName(buf, offset, fuel) == NameDecoded(|buf| - offset + 1, Join(labels))
  {
    // For solver speed only: keep these bodies folded; the lemmas called below state what is used.
    hide NameWalk, EncodeLabels;
    var enc := EncodeLabels(labels);
    DottedLength(labels);
    EncodeLabelsLength(labels);
    assert buf[offset..offset + |enc|] == enc;
    WalkLabels(buf, offset, offset, [], 0, fuel, labels);
    assert [] + Dotted(labels) == Dotted(labels);
    ExitStep(buf, offset, offset + |enc|, Dotted(labels), 0, fuel - |labels|);
    FinishLabels(labels, 0);
  }

  /** Labels whose dotted form exceeds the 256-byte buffer fail the name. */
  lemma {:induction false} WalkOverCapacityFails(buf: seq<byte>, orig: nat, offset: nat, out: seq<byte>,
                                                 wirelen: nat, fuel: nat, labels: seq<seq<byte>>)
    requires ValidLabels(labels)
    requires |out| <= NameCapacity && wirelen <= NameCapacity + 2
    requires |out| + |Dotted(labels)| > NameCapacity
    requires At(buf, offset, EncodeLabels(labels))
    requires fuel >= |labels|
    ensures NameWalk(buf, orig, offset, out, wirelen, fuel) == NameFailed
    decreases |labels|
  {
    hide NameWalk;
    var l := labels[0];
    AtLabels(buf, offset, labels);
    if |out| + |l| + 1 > NameCapacity {
      OversizedLabelFails(buf, orig, offset, out, wirelen, fuel);
    } else {
      LiteralStep(buf, orig, offset, out, wirelen, fuel);
      assert |out + l + [Dot]| + |Dotted(labels[1..])| == |out| + |Dotted(labels)|;
      WalkOverCapacityFails(buf, orig, offset + 1 + |l|, out + l + [Dot], wirelen, fuel - 1, labels[1..]);
    }
  }

  /** A name longer than 255 text bytes is rejected. */
  lemma ParseOverlongNameFails(buf: seq<byte>, offset: nat, labels: seq<seq<byte>>, fuel: nat)
    requires ValidLabels(labels) && |labels| > 0
    requires |Join(labels)| >= NameCapacity
    requires At(buf, offset, EncodeLabels(labels))
    requires fuel >= |labels|
    ensures ParseName(buf, offset, fuel) == NameFailed
  {
    DottedLength(labels);
    WalkOverCapacityFails(buf, offset, offset, [], 0, fuel, labels);
  }

  // ---------------------------------------------------------------------
  // Compression pointers.

  /** The two bytes of a pointer to `target`. */
  function EncodePointer(target: nat): (b: seq<byte>)
    requires target < 0x4000
    ensures |b| == 2
  {
    [(0xC0 + target / 256) as byte, (target % 256) as byte]
  }

  lemma PointerTargetValue(b: byte, next: byte)
    requires b as nat >= 0xC0
    ensures IsPointerByte(b)
    ensures PointerTarget(b, next) == (b as nat - 0xC0) * 256 + next as nat
  {
  }

  /** Encoding a pointer and decoding it gives the target back. */
  lemma PointerRoundTrip(target: nat)
    requires target < 0x4000
    ensures IsPointerByte(EncodePointer(target)[0])
    ensures PointerTarget(EncodePointer(target)[0], EncodePointer(target)[1]) == target
  {
    var hi := (0xC0 + target / 256) as byte;
    var lo := (target % 256) as byte;
    PointerTargetValue(hi, lo);
  }

  /** Walking over encoded `prefix` labels and a pointer below `orig` lands
      on the pointer's target; the wire length is frozen there unless an
      earlier pointer already froze it. */
  lemma WalkPrefixAndPointer(buf: seq<byte>, orig: nat, offset: nat, out: seq<byte>, wirelen: nat,
                             prefix: seq<seq<byte>>, target: nat, fuel: nat)
    requires ValidLabels(prefix) && |out| + |Dotted(prefix)| <= NameCapacity
    requires wirelen <= NameCapacity + 2
    requires target < orig && target < 0x4000
    requires At(buf, offset, EncodeLabels(prefix) + EncodePointer(target))
    requires fuel >= |prefix| + 1
    ensures NameWalk(buf, orig, offset, out, wirelen, fuel)
            == NameWalk(buf, orig, target, out + Dotted(prefix),
                        if wirelen == 0 then |out| + |Dotted(prefix)| + 2 else wirelen, fuel - |prefix| - 1)
  {
    hide NameWalk;
    var encP := EncodeLabels(prefix);
    var ptr := EncodePointer(target);
    EncodeLabelsLength(prefix);
    AtConcat(buf, offset, encP, ptr);
    WalkLabels(buf, orig, offset, out, wirelen, fuel, prefix);
    var p := offset + |encP|;
    var d := out + Dotted(prefix);
    AtIndex(buf, p, ptr, 0);
    AtIndex(buf, p, ptr, 1);
    PointerRoundTrip(target);
    PointerStep(buf, orig, p, d, wirelen, fuel - |prefix|);
  }

  /** One stretch of a compressed name: literal labels, then a pointer. */
  datatype Segment = Segment(labels: seq<seq<byte>>, target: nat)

  /** `segs` then the uncompressed `tail` laid out from `offset`: each
      segment's labels and pointer are at the current position, its pointer
      aims below `orig` and leads to where the rest of the chain is laid
      out; the last pointer (or `offset` itself, with no segments) holds
      `tail` with its root byte. */
  predicate ChainAt(buf: seq<byte>, orig: nat, offset: nat, segs: seq<Segment>, tail: seq<seq<byte>>)
    decreases |segs|
  {
    if |segs| == 0 then ValidLabels(tail) && At(buf, offset, EncodeName(tail))
    else
      ValidLabels(segs[0].labels) && segs[0].target < orig && segs[0].target < 0x4000
      && At(buf, offset, EncodeLabels(segs[0].labels) + EncodePointer(segs[0].target))
      && ChainAt(buf, orig, segs[0].target, segs[1..], tail)
  }

  /** Every label of the chain, in the order the walk copies them. */
  function ChainLabels(segs: seq<Segment>, tail: seq<seq<byte>>): (labels: seq<seq<byte>>)
    decreases |segs|
  {
    if |segs| == 0 then tail else segs[0].labels + ChainLabels(segs[1..], tail)
  }

  /** Walking a chain appends all its labels; the wire length is frozen at
      the first pointer, after that segment's labels. */
  lemma {:induction false} WalkChain(buf: seq<byte>, orig: nat, offset: nat, out: seq<byte>, wirelen: nat,
                                     segs: seq<Segment>, tail: seq<seq<byte>>, fuel: nat)
    requires ChainAt(buf, orig, offset, segs, tail)
    requires |out| + |Dotted(ChainLabels(segs, tail))| <= NameCapacity && wirelen <= NameCapacity + 2
    requires fuel >= |ChainLabels(segs, tail)| + |segs|
    ensures NameWalk(buf, orig, offset, out, wirelen, fuel)
            == FinishName(out + Dotted(ChainLabels(segs, tail)),
                          if wirelen == 0 && |segs| > 0 then |out| + |Dotted(segs[0].labels)| + 2 else wirelen)
    decreases |segs|
  {
    // For solver speed only: keep these bodies folded; the lemmas called below state what is used.
    hide NameWalk, FinishName, Dotted, EncodeLabels, EncodePointer, EncodeName;
    if |segs| == 0 {
      WalkEncodedName(buf, orig, offset, out, wirelen, tail, fuel);
    } else {
      var s := segs[0];
      var rest := ChainLabels(segs[1..], tail);
      assert ChainLabels(segs, tail) == s.labels + rest;
      DottedAppend(s.labels, rest);
      var out' := out + Dotted(s.labels);
      var w := if wirelen == 0 then |out| + |Dotted(s.labels)| + 2 else wirelen;
      WalkPrefixAndPointer(buf, orig, offset, out, wirelen, s.labels, s.target, fuel);
      WalkChain(buf, orig, s.target, out', w, segs[1..], tail, fuel - |s.labels| - 1);
      assert out' + Dotted(rest) == out + Dotted(ChainLabels(segs, tail));
    }
  }

  /** A name compressed through one or more pointers, each aimed below the
      name's start, decodes to all the labels of the chain joined by dots;
      its wire length covers the first segment's labels and its pointer. A
      NUL byte in any label fails the name. */
  lemma ParseChainedName(buf: seq<byte>, offset: nat, segs: seq<Segment>, tail: seq<seq<byte>>, fuel: nat)
    requires |segs| > 0 && ChainAt(buf, offset, offset, segs, tail)
    requires |Dotted(ChainLabels(segs, tail))| <= NameCapacity
    requires fuel >= |ChainLabels(segs, tail)| + |segs|
    ensures NulFreeLabels(ChainLabels(segs, tail)) ==>
              ParseName(buf, offset, fuel)
              == NameDecoded(|EncodeLabels(segs[0].labels)| + 2, Join(ChainLabels(segs, tail)))
    ensures !NulFreeLabels(ChainLabels(segs, tail)) ==> ParseName(buf, offset, fuel) == NameFailed
  {
    hide NameWalk;
    var all := ChainLabels(segs, tail);
    var w := |Dotted(segs[0].labels)| + 2;
    WalkChain(buf, offset, offset, [], 0, segs, tail, fuel);
    assert [] + Dotted(all) == Dotted(all);
    EncodeLabelsLength(segs[0].labels);
    if |all| > 0 {
      FinishLabels(all, w);
    } else {
      assert Dotted(all) == [] && Join(all) == [];
    }
  }

  /** `a` at 0, `c` then a pointer to 0 at 3, `b` then a pointer to 3 at 7:
      the name at 7 reaches its end through two pointers. */
  const ChainSample: seq<byte> := [1, 0x61, 0, 1, 0x63, 0xC0, 0x00, 1, 0x62, 0xC0, 0x03]

  /** The pointers of `ChainSample`: `b` at 7 points to `c` at 3, which
      points to `a` at 0. */
  function ChainSampleSegments(): (segs: seq<Segment>)
    ensures ChainAt(ChainSample, 7, 7, segs, [[0x61]])
    ensures ChainLabels(segs, [[0x61]]) == [[0x62], [0x63], [0x61]]
    ensures segs[0].labels == [[0x62]]
  {
    var buf := ChainSample;
    var segs := [Segment([[0x62]], 3), Segment([[0x63]], 0)];
    var tail: seq<seq<byte>> := [[0x61]];
    assert EncodeName(tail) == buf[0..3];
    assert EncodeLabels([[0x63]]) + EncodePointer(0) == buf[3..7];
    assert EncodeLabels([[0x62]]) + EncodePointer(3) == buf[7..11];
    assert segs[1..][1..] == [];
    assert ChainAt(buf, 7, 0, segs[1..][1..], tail);
    assert ChainAt(buf, 7, 3, segs[1..], tail);
    segs
  }

  /** The name at 7 of `ChainSample` is `b.c.a`, four bytes on the wire. */
  lemma ChainSampleParses()
    ensures ParseName(ChainSample, 7, 5) == NameDecoded(4, [0x62, Dot, 0x63, Dot, 0x61])
  {
    // For solver speed only: keep these bodies folded; the lemmas called below state what is used.
    hide NameWalk, ParseName, ChainAt, EncodePointer, EncodeName;
    var segs := ChainSampleSegments();
    var all: seq<seq<byte>> := [[0x62], [0x63], [0x61]];
    assert all[1..][1..][1..] == [];
    assert Dotted(all) == [0x62, Dot, 0x63, Dot, 0x61, Dot];
    assert Join(all[1..][1..]) == [0x61];
    assert Join(all) == [0x62, Dot, 0x63, Dot, 0x61];
    assert |EncodeLabels(segs[0].labels)| == 2;
    ParseChainedName(ChainSample, 7, segs, [[0x61]], 5);
  }

  /** A name written as uncompressed `prefix` labels and a pointer to an
      earlier uncompressed name `suffix`: the text is all the labels, and
      the wire length covers the prefix and the two pointer bytes only. With
      no labels at all it is the bare pointer to a root byte, which decodes
      to the empty name with wire length 2. */
  lemma ParseCompressedName(buf: seq<byte>, offset: nat, prefix: seq<seq<byte>>,
                            target: nat, suffix: seq<seq<byte>>, fuel: nat)
    requires ValidLabels(prefix) && ValidLabels(suffix)
    requires NulFreeLabels(prefix + suffix)
    requires |Dotted(prefix + suffix)| <= NameCapacity
    requires target < offset && target < 0x4000
    requires At(buf, offset, EncodeLabels(prefix) + EncodePointer(target))
    requires At(buf, target, EncodeName(suffix))
    requires fuel >= |prefix| + 1 + |suffix|
    ensures ParseName(buf, offset, fuel)
            == NameDecoded(|EncodeLabels(prefix)| + 2, Join(prefix + suffix))
  {
    // For solver speed only: keep these bodies folded; the lemmas called below state what is used.
    hide NameWalk, ParseName, Dotted, Join, EncodeLabels, EncodeName, EncodePointer;
    var segs := [Segment(prefix, target)];
    assert segs[1..] == [];
    assert ChainAt(buf, offset, target, [], suffix);
    assert ChainAt(buf, offset, offset, segs, suffix);
    assert ChainLabels(segs, suffix) == prefix + suffix;
    ParseChainedName(buf, offset, segs, suffix, fuel);
  }

  /** A name that is only a pointer to an earlier uncompressed name: the
      text is that name's, and the wire length is the two pointer bytes. */
  lemma ParsePointerName(buf: seq<byte>, offset: nat, target: nat, labels: seq<seq<byte>>, fuel: nat)
    requires ValidLabels(labels) && NulFreeLabels(labels)
    requires |Dotted(labels)| <= NameCapacity
    requires target < offset && target < 0x4000
    requires At(buf, offset, EncodePointer(target))
    requires At(buf, target, EncodeName(labels))
    requires fuel >= 1 + |labels|
    ensures ParseName(buf, offset, fuel) == NameDecoded(2, Join(labels))
  {
    // For solver speed only: keep these bodies folded; the lemmas called below state what is used.
    hide NameWalk, ParseName;
    assert EncodeLabels([]) + EncodePointer(target) == EncodePointer(target);
    assert [] + labels == labels;
    ParseCompressedName(buf, offset, [], target, labels, fuel);
  }

  // ---------------------------------------------------------------------
  // Termination and fuel.

  /** More fuel never changes an answer that was reached. */
  lemma {:induction false} NameWalkFuelMonotone(buf: seq<byte>, orig: nat, offset: nat, out: seq<byte>,
                                                wirelen: nat, fuel: nat, more: nat)
    requires |out| <= NameCapacity && wirelen <= NameCapacity + 2
    requires more >= fuel
    requires !NameWalk(buf, orig, offset, out, wirelen, fuel).NameDiverges?
    ensures NameWalk(buf, orig, offset, out, wirelen, more) == NameWalk(buf, orig, offset, out, wirelen, fuel)
    decreases fuel
  {
    hide NameWalk;
    if offset >= |buf| || buf[offset] == RootLabel {
      ExitStep(buf, orig, offset, out, wirelen, fuel);
      ExitStep(buf, orig, offset, out, wirelen, more);
    } else {
      if fuel == 0 {
        ZeroFuel(buf, orig, offset, out, wirelen);
      }
      if IsPointerByte(buf[offset]) {
        if offset + 1 < |buf| && PointerTarget(buf[offset], buf[offset + 1]) < orig {
          var target := PointerTarget(buf[offset], buf[offset + 1]);
          var w := if wirelen == 0 then |out| + 2 else wirelen;
          PointerStep(buf, orig, offset, out, wirelen, fuel);
          PointerStep(buf, orig, offset, out, wirelen, more);
          NameWalkFuelMonotone(buf, orig, target, out, w, fuel - 1, more - 1);
        } else {
          BadPointerFails(buf, orig, offset, out, wirelen, fuel);
          BadPointerFails(buf, orig, offset, out, wirelen, more);
        }
      } else {
        var length := buf[offset] as nat;
        if offset + 1 + length <= |buf| && |out| + length + 1 <= NameCapacity {
          var out' := out + buf[offset + 1..offset + 1 + length] + [Dot];
          LiteralStep(buf, orig, offset, out, wirelen, fuel);
          LiteralStep(buf, orig, offset, out, wirelen, more);
          NameWalkFuelMonotone(buf, orig, offset + 1 + length, out', wirelen, fuel - 1, more - 1);
        } else {
          OversizedLabelFails(buf, orig, offset, out, wirelen, fuel);
          OversizedLabelFails(buf, orig, offset, out, wirelen, more);
        }
      }
    }
  }

  /** parse_name gives the same answer for every fuel beyond one that sufficed. */
  lemma ParseNameFuelMonotone(buf: seq<byte>, offset: nat, fuel: nat, more: nat)
    requires more >= fuel && !ParseName(buf, offset, fuel).NameDiverges?
    ensures ParseName(buf, offset, more) == ParseName(buf, offset, fuel)
  {
    NameWalkFuelMonotone(buf, offset, offset, [], 0, fuel, more);
  }

  /** Every octet below `orig` with its top two bits set, read together
      with the octet after it as a pointer, aims strictly below its own
      position. This constrains every such octet, not just the pointers a
      name uses: a message ID, label text, TTL or RDATA octet of 0xC0 or
      more counts too, so ordinary messages can fail it (`HighIdMessage`).
      It is a sufficient condition for the loop to stop, not a necessary
      one; `ParseNameSettles` needs no condition at all. */
  predicate BackwardPointers(buf: seq<byte>, orig: nat)
  {
    forall p :: 0 <= p < orig && p + 1 < |buf| && IsPointerByte(buf[p]) ==>
      PointerTarget(buf[p], buf[p + 1]) < p
  }

  /** A bound on the loop iterations still to come: each literal label adds
      at least two bytes to `out`; under `BackwardPointers` each pointer
      moves strictly backwards. */
  function WalkMeasure(bufLength: nat, offset: nat, out: seq<byte>): (m: nat)
    requires |out| <= NameCapacity
    ensures m > offset
  {
    (NameCapacity + 1 - |out|) * (bufLength + 1) + offset
  }

  /** Fuel that suffices for any name in a buffer of `n` bytes. */
  function SufficientFuel(n: nat): nat
  {
    (NameCapacity + 2) * (n + 1)
  }

  lemma MeasureAfterLabel(n: nat, offset: nat, next: nat, out: seq<byte>, out': seq<byte>)
    requires |out| + 2 <= |out'| <= NameCapacity && offset <= n && next <= n
    ensures WalkMeasure(n, next, out') < WalkMeasure(n, offset, out)
  {
    var a := NameCapacity + 1 - |out|;
    var b := NameCapacity + 1 - |out'|;
    assert b + 2 <= a;
    assert a * (n + 1) >= (b + 2) * (n + 1) == b * (n + 1) + 2 * (n + 1);
  }

  lemma MeasureAfterPointer(n: nat, offset: nat, target: nat, out: seq<byte>)
    requires |out| <= NameCapacity && target < offset
    ensures WalkMeasure(n, target, out) < WalkMeasure(n, offset, out)
  {
  }

  /** Under `BackwardPointers`, the loop stops within `WalkMeasure` iterations. */
  lemma {:induction false} NameWalkTerminates(buf: seq<byte>, orig: nat, offset: nat, out: seq<byte>,
                                              wirelen: nat, fuel: nat)
    requires |out| <= NameCapacity && wirelen <= NameCapacity + 2
    requires BackwardPointers(buf, orig) && orig <= |buf| && offset <= |buf|
    requires fuel >= WalkMeasure(|buf|, offset, out)
    ensures !NameWalk(buf, orig, offset, out, wirelen, fuel).NameDiverges?
    decreases fuel, 1
  {
    if offset >= |buf| || buf[offset] == RootLabel {
      ExitStep(buf, orig, offset, out, wirelen, fuel);
    } else if IsPointerByte(buf[offset]) {
      PointerTerminates(buf, orig, offset, out, wirelen, fuel);
    } else {
      LabelTerminates(buf, orig, offset, out, wirelen, fuel);
    }
  }

  lemma {:induction false} PointerTerminates(buf: seq<byte>, orig: nat, offset: nat, out: seq<byte>,
                                             wirelen: nat, fuel: nat)
    requires |out| <= NameCapacity && wirelen <= NameCapacity + 2
    requires BackwardPointers(buf, orig) && orig <= |buf| && offset < |buf|
    requires IsPointerByte(buf[offset])
    requires fuel >= WalkMeasure(|buf|, offset, out)
    ensures !NameWalk(buf, orig, offset, out, wirelen, fuel).NameDiverges?
    decreases fuel, 0
  {
    if offset + 1 < |buf| && PointerTarget(buf[offset], buf[offset + 1]) < orig {
      var target := PointerTarget(buf[offset], buf[offset + 1]);
      assert target < offset;
      MeasureAfterPointer(|buf|, offset, target, out);
      var w := if wirelen == 0 then |out| + 2 else wirelen;
      PointerStep(buf, orig, offset, out, wirelen, fuel);
      NameWalkTerminates(buf, orig, target, out, w, fuel - 1);
    } else {
      BadPointerFails(buf, orig, offset, out, wirelen, fuel);
    }
  }

  lemma {:induction false} LabelTerminates(buf: seq<byte>, orig: nat, offset: nat, out: seq<byte>,
                                           wirelen: nat, fuel: nat)
    requires |out| <= NameCapacity && wirelen <= NameCapacity + 2
    requires BackwardPointers(buf, orig) && orig <= |buf| && offset < |buf|
    requires buf[offset] != RootLabel && !IsPointerByte(buf[offset])
    requires fuel >= WalkMeasure(|buf|, offset, out)
    ensures !NameWalk(buf, orig, offset, out, wirelen, fuel).NameDiverges?
    decreases fuel, 0
  {
    var length := buf[offset] as nat;
    if offset + 1 + length <= |buf| && |out| + length + 1 <= NameCapacity {
      var out' := out + buf[offset + 1..offset + 1 + length] + [Dot];
      MeasureAfterLabel(|buf|, offset, offset + 1 + length, out, out');
      LiteralStep(buf, orig, offset, out, wirelen, fuel);
      NameWalkTerminates(buf, orig, offset + 1 + length, out', wirelen, fuel - 1);
    } else {
      OversizedLabelFails(buf, orig, offset, out, wirelen, fuel);
    }
  }

  /** parse_name stops within `SufficientFuel` iterations on every buffer
      satisfying `BackwardPointers` for the name's start. */
  lemma ParseNameTerminates(buf: seq<byte>, offset: nat, fuel: nat)
    requires BackwardPointers(buf, offset) && offset <= |buf|
    requires fuel >= SufficientFuel(|buf|)
    ensures !ParseName(buf, offset, fuel).NameDiverges?
  {
    NameWalkTerminates(buf, offset, offset, [], 0, fuel);
  }

  /** A query with ID `C7 A0` and the uncompressed question name `a`. */
  const HighIdMessage: seq<byte> :=
    [0xC7, 0xA0, 0x01, 0x00, 0x00, 0x01, 0x00, 0x00, 0x00, 0x00, 0x00, 0x00, 0x01, 0x61, 0x00]

  /** The ID octet 0xC7 read as a pointer aims forwards, so the message
      fails `BackwardPointers`, yet its name decodes in one iteration. */
  lemma HighIdNameParses()
    ensures !BackwardPointers(HighIdMessage, 12)
    ensures ParseName(HighIdMessage, 12, 1) == NameDecoded(3, [0x61])
  {
    var buf := HighIdMessage;
    assert buf[0] == 0xC7 && buf[1] == 0xA0 && PointerTarget(buf[0], buf[1]) == 0x7A0;
    assert EncodeName([[0x61]]) == buf[12..15];
    ParseEncodedName(buf, 12, [[0x61]], 1);
  }

  // ---------------------------------------------------------------------
  // Termination without hypotheses: the loop either stops within
  // `SufficientFuel` iterations or never stops.

  /** The loop follows the pointer at `p`: both bytes are there and the
      target is below `orig`. */
  predicate FollowsPointer(buf: seq<byte>, orig: nat, p: nat)
  {
    p + 1 < |buf| && IsPointerByte(buf[p]) && PointerTarget(buf[p], buf[p + 1]) < orig
  }

  /** The `i`-th offset of `path` is a pointer the loop follows, to the
      next offset of the path or, for the last one, to `next`. */
  predicate PathStep(buf: seq<byte>, orig: nat, path: seq<nat>, next: nat, i: nat)
    requires i < |path|
  {
    FollowsPointer(buf, orig, path[i])
    && PointerTarget(buf[path[i]], buf[path[i] + 1]) == (if i + 1 < |path| then path[i + 1] else next)
  }

  /** The offsets in `path` are pointers the loop follows one after the
      other, and the last one leads to `next`. */
  predicate PointerPath(buf: seq<byte>, orig: nat, path: seq<nat>, next: nat)
  {
    forall i :: 0 <= i < |path| ==> PathStep(buf, orig, path, next, i)
  }

  predicate Distinct(s: seq<nat>)
  {
    forall i, j :: 0 <= i < j < |s| ==> s[i] != s[j]
  }

  /** Pigeonhole: distinct values below `n` number at most `n`. */
  lemma {:induction false} DistinctBelow(s: seq<nat>, n: nat)
    requires Distinct(s)
    requires forall i :: 0 <= i < |s| ==> s[i] < n
    ensures |s| <= n
    decreases n
  {
    if |s| > 0 {
      assert s[0] < n;
      if k :| 0 <= k < |s| && s[k] == n - 1 {
        var t := s[..k] + s[k + 1..];
        forall m | 0 <= m < |t|
          ensures t[m] == if m < k then s[m] else s[m + 1]
        {
        }
        DistinctBelow(t, n - 1);
      } else {
        DistinctBelow(s, n - 1);
      }
    }
  }

  /** Fuel enough to finish from a walk state whose output holds `out`. */
  function FuelBound(n: nat, out: seq<byte>): (f: nat)
    requires |out| <= NameCapacity
    ensures f >= 2 * (n + 1)
  {
    var rows := NameCapacity + 2 - |out|;
    RowsCover(rows, n);
    rows * (n + 1)
  }

  /** Two rows or more of `n + 1` iterations cover two rows. */
  lemma RowsCover(rows: nat, n: nat)
    requires rows >= 2
    ensures rows * (n + 1) >= 2 * (n + 1)
  {
    var k := rows - 2;
    assert rows * (n + 1) == 2 * (n + 1) + k * (n + 1);
  }

  /** A path of pointers that closes on itself from `start` on keeps the
      loop running for ever. */
  lemma {:induction false} LoopDiverges(buf: seq<byte>, orig: nat, path: seq<nat>, start: nat, k: nat,
                                        out: seq<byte>, wirelen: nat, fuel: nat)
    requires |out| <= NameCapacity && wirelen <= NameCapacity + 2
    requires start <= k < |path| && PointerPath(buf, orig, path, path[start])
    ensures NameWalk(buf, orig, path[k], out, wirelen, fuel) == NameDiverges
    decreases fuel
  {
    hide NameWalk;
    var p := path[k];
    assert PathStep(buf, orig, path, path[start], k);
    if fuel == 0 {
      ZeroFuel(buf, orig, p, out, wirelen);
    } else {
      var w := if wirelen == 0 then |out| + 2 else wirelen;
      var k' := if k + 1 < |path| then k + 1 else start;
      assert PathStep(buf, orig, path, path[start], k);
      PointerStep(buf, orig, p, out, wirelen, fuel);
      LoopDiverges(buf, orig, path, start, k', out, w, fuel - 1);
    }
  }

  /** The loop at `offset`, reached from the pointers of `path` (none of
      them seen twice), either does not stop within `fuel` iterations or
      stops within `FuelBound` of its output less the pointers already
      followed. */
  lemma {:induction false} WalkSettles(buf: seq<byte>, orig: nat, offset: nat, out: seq<byte>,
                                       wirelen: nat, fuel: nat, path: seq<nat>)
    requires |out| <= NameCapacity && wirelen <= NameCapacity + 2
    requires PointerPath(buf, orig, path, offset) && Distinct(path)
    requires |path| > 0 ==> wirelen != 0
    ensures |path| <= |buf|
    ensures NameWalk(buf, orig, offset, out, wirelen, fuel).NameDiverges?
            || !NameWalk(buf, orig, offset, out, wirelen, FuelBound(|buf|, out) - |path|).NameDiverges?
    decreases NameCapacity - |out|, |buf| - |path|, 1
  {
    hide NameWalk;
    forall i | 0 <= i < |path|
      ensures path[i] < |buf|
    {
      assert PathStep(buf, orig, path, offset, i);
    }
    DistinctBelow(path, |buf|);
    var n := |buf|;
    var bound := FuelBound(n, out) - |path|;
    if offset >= n || buf[offset] == RootLabel {
      ExitStep(buf, orig, offset, out, wirelen, bound);
    } else if fuel == 0 {
      ZeroFuel(buf, orig, offset, out, wirelen);
    } else if FollowsPointer(buf, orig, offset) {
      if i :| 0 <= i < |path| && path[i] == offset {
        LoopDiverges(buf, orig, path, i, i, out, wirelen, fuel);
      } else {
        PointerOnPath(buf, orig, offset, out, wirelen, fuel, path);
      }
    } else if IsPointerByte(buf[offset]) {
      BadPointerFails(buf, orig, offset, out, wirelen, bound);
    } else if offset + 1 + buf[offset] as nat > n || |out| + buf[offset] as nat + 1 > NameCapacity {
      OversizedLabelFails(buf, orig, offset, out, wirelen, bound);
    } else {
      LabelOnPath(buf, orig, offset, out, wirelen, fuel, path);
    }
  }

  /** `WalkSettles` at a pointer not yet on the path: follow it and extend
      the path. */
  lemma {:induction false} PointerOnPath(buf: seq<byte>, orig: nat, offset: nat, out: seq<byte>,
                                         wirelen: nat, fuel: nat, path: seq<nat>)
    requires |out| <= NameCapacity && wirelen <= NameCapacity + 2
    requires PointerPath(buf, orig, path, offset) && Distinct(path)
    requires |path| > 0 ==> wirelen != 0
    requires |path| <= |buf| && fuel > 0
    requires FollowsPointer(buf, orig, offset) && offset !in path
    ensures NameWalk(buf, orig, offset, out, wirelen, fuel).NameDiverges?
            || !NameWalk(buf, orig, offset, out, wirelen, FuelBound(|buf|, out) - |path|).NameDiverges?
    decreases NameCapacity - |out|, |buf| - |path|, 0
  {
    hide NameWalk;
    var next := PointerTarget(buf[offset], buf[offset + 1]);
    var w := if wirelen == 0 then |out| + 2 else wirelen;
    var path' := path + [offset];
    forall i | 0 <= i < |path'|
      ensures PathStep(buf, orig, path', next, i)
    {
      if i < |path| {
        assert PathStep(buf, orig, path, offset, i);
      }
    }
    assert Distinct(path');
    forall i | 0 <= i < |path'|
      ensures path'[i] < |buf|
    {
      assert PathStep(buf, orig, path', next, i);
    }
    DistinctBelow(path', |buf|);
    var bound := FuelBound(|buf|, out) - |path|;
    PointerStep(buf, orig, offset, out, wirelen, fuel);
    PointerStep(buf, orig, offset, out, wirelen, bound);
    WalkSettles(buf, orig, next, out, w, fuel - 1, path');
  }

  /** `WalkSettles` at a literal label that fits: the output grows by at
      least two bytes and the path starts afresh. */
  lemma {:induction false} LabelOnPath(buf: seq<byte>, orig: nat, offset: nat, out: seq<byte>,
                                       wirelen: nat, fuel: nat, path: seq<nat>)
    requires |out| <= NameCapacity && wirelen <= NameCapacity + 2
    requires |path| <= |buf| && fuel > 0
    requires offset < |buf| && buf[offset] != RootLabel && !IsPointerByte(buf[offset])
    requires offset + 1 + buf[offset] as nat <= |buf|
    requires |out| + buf[offset] as nat + 1 <= NameCapacity
    ensures NameWalk(buf, orig, offset, out, wirelen, fuel).NameDiverges?
            || !NameWalk(buf, orig, offset, out, wirelen, FuelBound(|buf|, out) - |path|).NameDiverges?
    decreases NameCapacity - |out|, 0, 0
  {
    hide NameWalk;
    var length := buf[offset] as nat;
    var next := offset + 1 + length;
    var out' := out + buf[offset + 1..next] + [Dot];
    var bound := FuelBound(|buf|, out) - |path|;
    BoundAfterLabel(|buf|, |path|, out, out');
    LiteralStep(buf, orig, offset, out, wirelen, fuel);
    LiteralStep(buf, orig, offset, out, wirelen, bound);
    WalkSettles(buf, orig, next, out', wirelen, fuel - 1, []);
    if !NameWalk(buf, orig, next, out', wirelen, FuelBound(|buf|, out')).NameDiverges? {
      NameWalkFuelMonotone(buf, orig, next, out', wirelen, FuelBound(|buf|, out'), bound - 1);
    }
  }

  /** A label costs one iteration and lowers the bound by two rows, more
      than a whole path of pointers. */
  lemma BoundAfterLabel(n: nat, pathLength: nat, out: seq<byte>, out': seq<byte>)
    requires |out| + 2 <= |out'| <= NameCapacity && pathLength <= n
    ensures FuelBound(n, out) - pathLength - 1 >= FuelBound(n, out')
  {
    var a := NameCapacity + 2 - |out|;
    var b := NameCapacity + 2 - |out'|;
    assert a * (n + 1) >= (b + 2) * (n + 1) == b * (n + 1) + 2 * (n + 1);
  }

  /** Whatever the buffer, `SufficientFuel` decides parse_name: a name that
      has not finished by then never finishes, and any fuel at which it
      finishes gives the same answer. */
  lemma ParseNameSettles(buf: seq<byte>, offset: nat, fuel: nat)
    ensures ParseName(buf, offset, SufficientFuel(|buf|)).NameDiverges? ==> ParseName(buf, offset, fuel).NameDiverges?
    ensures !ParseName(buf, offset, fuel).NameDiverges? ==>
              ParseName(buf, offset, fuel) == ParseName(buf, offset, SufficientFuel(|buf|))
    ensures fuel >= SufficientFuel(|buf|) ==>
              ParseName(buf, offset, fuel) == ParseName(buf, offset, SufficientFuel(|buf|))
  {
    var sf := SufficientFuel(|buf|);
    var noPath: seq<nat> := [];
    assert FuelBound(|buf|, []) - |noPath| == sf;
    WalkSettles(buf, offset, offset, [], 0, fuel, noPath);
    assert ParseName(buf, offset, fuel) == NameWalk(buf, offset, offset, [], 0, fuel);
    assert ParseName(buf, offset, sf) == NameWalk(buf, offset, offset, [], 0, sf);
    if !ParseName(buf, offset, fuel).NameDiverges? && fuel <= sf {
      NameWalkFuelMonotone(buf, offset, offset, [], 0, fuel, sf);
    } else if !ParseName(buf, offset, sf).NameDiverges? && sf <= fuel {
      NameWalkFuelMonotone(buf, offset, offset, [], 0, sf, fuel);
    }
  }

  // ---------------------------------------------------------------------
  // A pointer cycle below the start: the C loop never stops.

  /** Bytes 0-3 hold two pointers to each other and the name at 12 points
      into them: `C0 02 C0 00 | 00 01 00 00 00 00 00 00 | C0 00`. */
  const CycleMessage: seq<byte> :=
    [0xC0, 0x02, 0xC0, 0x00, 0x00, 0x01, 0x00, 0x00, 0x00, 0x00, 0x00, 0x00, 0xC0, 0x00]

  lemma {:induction false} CycleWalkDiverges(fuel: nat)
    ensures NameWalk(CycleMessage, 12, 0, [], 2, fuel) == NameDiverges
    ensures NameWalk(CycleMessage, 12, 2, [], 2, fuel) == NameDiverges
    decreases fuel
  {
    hide NameWalk;
    var buf := CycleMessage;
    assert buf[0] == 0xC0 && buf[1] == 0x02 && buf[2] == 0xC0 && buf[3] == 0x00;
    if fuel == 0 {
      ZeroFuel(buf, 12, 0, [], 2);
      ZeroFuel(buf, 12, 2, [], 2);
    } else {
      PointerStep(buf, 12, 0, [], 2, fuel);
      PointerStep(buf, 12, 2, [], 2, fuel);
      CycleWalkDiverges(fuel - 1);
    }
  }

  /** The name at offset 12 of `CycleMessage` never finishes decoding,
      whatever the fuel; its pointers break `BackwardPointers`. */
  lemma CycleNameDiverges(fuel: nat)
    ensures ParseName(CycleMessage, 12, fuel) == NameDiverges
    ensures !BackwardPointers(CycleMessage, 12)
  {
    hide NameWalk;
    var buf := CycleMessage;
    assert buf[0] == 0xC0 && buf[1] == 0x02 && buf[12] == 0xC0 && buf[13] == 0x00;
    assert PointerTarget(buf[0], buf[1]) == 2;
    if fuel == 0 {
      ZeroFuel(buf, 12, 12, [], 0);
    } else {
      PointerStep(buf, 12, 12, [], 0, fuel);
      CycleWalkDiverges(fuel - 1);
    }
  }
}
