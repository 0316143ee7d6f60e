/** isFileArchive: the signature test that decides whether visitFile treats a file as an
    archive. The table holds hexadecimal text, but the value compared against it is the decimal
    rendering of a 32-bit int, so the test never succeeds. */
module ArchiveSniffer {
  import opened FileSystem
  import Decimal

  /** ARCHIVE_SIGNATURE, in the source's order and with its duplicates. */
  const ArchiveSignature: seq<string> :=
    ["0x504B0304", "0x377ABCAF271C", "0x526172211A0700", "0x1F8B08",
     "0x425A68", "0x7573746172", "0x504B0304", "0x1F8B08"]

  const TwoTo31: int := 0x8000_0000
  const TwoTo32: int := 0x1_0000_0000

  predicate IsInt32(x: int) {
    -TwoTo31 <= x < TwoTo31
  }

  /** The four bytes of a 32-bit int, most significant first, in two's complement. */
  function IntBytes(x: int): (b: seq<Byte>)
    requires IsInt32(x)
    ensures |b| == 4
  {
    var u := if x < 0 then x + TwoTo32 else x;
    [(u / 0x100_0000) as Byte, (u / 0x1_0000 % 0x100) as Byte,
     (u / 0x100 % 0x100) as Byte, (u % 0x100) as Byte]
  }

  /** RandomAccessFile.readInt: four bytes read big-endian as a signed 32-bit int. */
  function ReadInt(b: seq<Byte>): (x: int)
    requires |b| >= 4
    ensures IsInt32(x)
    ensures x < 0 <==> b[0] >= 0x80
  {
    var u := b[0] as int * 0x100_0000 + b[1] as int * 0x1_0000 + b[2] as int * 0x100 + b[3] as int;
    if u >= TwoTo31 then u - TwoTo32 else u
  }

  lemma DivModByte(x: int, q: int, r: int)
    requires 0 <= r < 0x100 && x == 0x100 * q + r
    ensures x / 0x100 == q && x % 0x100 == r
  {
  }

  /** Writing back the int readInt returns gives the four bytes it read. */
  lemma ReadIntRoundTrip(b: seq<Byte>)
    requires |b| >= 4
    ensures IntBytes(ReadInt(b)) == b[..4]
  {
    var b0, b1, b2, b3 := b[0] as int, b[1] as int, b[2] as int, b[3] as int;
    var u := b0 * 0x100_0000 + b1 * 0x1_0000 + b2 * 0x100 + b3;
    var x := ReadInt(b);
    assert (if x < 0 then x + TwoTo32 else x) == u;
    DivModByte(u, b0 * 0x1_0000 + b1 * 0x100 + b2, b3);
    DivModByte(u / 0x100, b0 * 0x100 + b1, b2);
    DivModByte(u / 0x100 / 0x100, b0, b1);
    assert u / 0x100 / 0x100 / 0x100 == b0 by {
      DivModByte(b0, 0, b0);
    }
    assert u / 0x1_0000 == u / 0x100 / 0x100;
    assert u / 0x100_0000 == u / 0x100 / 0x100 / 0x100;
    var r := IntBytes(x);
    assert r[0] == b[0] && r[1] == b[1] && r[2] == b[2] && r[3] == b[3];
  }

  /** The int isFileArchive compares: readInt of the first four bytes, or the initial 0 when
      opening the file or reading four bytes throws. */
  function SignatureOf(f: FileInfo): (x: int)
    ensures IsInt32(x)
    ensures x != 0 ==> f.present && f.readable && |f.leading| >= 4
  {
    if f.present && f.readable && |f.leading| >= 4 then ReadInt(f.leading) else 0
  }

  /** isFileArchive with the signature table as a parameter: files shorter than four bytes
      are rejected before anything is read, whatever the table holds. */
  function IsFileArchiveWith(table: seq<string>, f: FileInfo): (b: bool)
    ensures f.length < 4 ==> !b
    ensures b ==> f.length >= 4 && Decimal.ValueOf(SignatureOf(f)) in table
  {
    if f.length < 4 then false else Decimal.ValueOf(SignatureOf(f)) in table
  }

  /** Every entry of the table starts with "0x". */
  lemma TableIsHex()
    ensures forall e :: e in ArchiveSignature ==> |e| >= 2 && e[..2] == "0x"
  {
  }

  /** Every entry has `x` second, a position where a decimal rendering holds a digit. */
  lemma TableSecondCharIsX()
    ensures forall e :: e in ArchiveSignature ==> |e| >= 2 && e[1] == 'x'
  {
  }

  /** No decimal rendering of an integer, whatever its value, is an entry of the table. */
  lemma DecimalNeverInTable(n: int)
    ensures Decimal.ValueOf(n) !in ArchiveSignature
  {
    TableSecondCharIsX();
  }

  /** isFileArchive as the source writes it: false for every file, so the archive branch of
      visitFile is never taken. */
  function IsFileArchive(f: FileInfo): (b: bool)
    ensures f.length < 4 ==> !b
    ensures !b
  {
    DecimalNeverInTable(SignatureOf(f));
    IsFileArchiveWith(ArchiveSignature, f)
  }
}
