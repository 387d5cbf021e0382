/** The 32-byte file handle: mount id, volume serial number and file id, laid out
    as they stand in memory. */
module FileHandle {
  import opened Bytes

  type FileId = s: seq<byte> | |s| == 16 witness [0, 0, 0, 0, 0, 0, 0, 0, 0, 0, 0, 0, 0, 0, 0, 0]

  datatype VolumeFileId = VolumeFileId(volume: u64, file: FileId)

  datatype MountFilehandle = MountFilehandle(mountId: u64, id: VolumeFileId)

  const SIZE: nat := 32

  function CreateInBinary(h: MountFilehandle): (data: seq<byte>)
    ensures |data| == SIZE
  {
    Le(h.mountId, 8) + Le(h.id.volume, 8) + h.id.file
  }

  /** Looks at the first 32 bytes of a handle, as the program does without
      checking that there are so many. */
  function ViewBinary(data: seq<byte>): MountFilehandle
    requires SIZE <= |data|
  {
    PowValues();
    LeNumBound(data[0..8]);
    LeNumBound(data[8..16]);
    MountFilehandle(LeNum(data[0..8]), VolumeFileId(LeNum(data[8..16]), data[16..32]))
  }

  /** Where the parts stand: as the structure lies in memory. */
  lemma HandleLayout(h: MountFilehandle)
    ensures var data := CreateInBinary(h);
            LeNum(data[0..8]) == h.mountId && LeNum(data[8..16]) == h.id.volume && data[16..32] == h.id.file
  {
    ViewOfCreate(h);
  }

  lemma ViewOfCreate(h: MountFilehandle)
    ensures ViewBinary(CreateInBinary(h)) == h
  {
    PowValues();
    LeNumOfLe(h.mountId, 8);
    LeNumOfLe(h.id.volume, 8);
    var data := CreateInBinary(h);
    assert data[0..8] == Le(h.mountId, 8);
    assert data[8..16] == Le(h.id.volume, 8);
    assert data[16..32] == h.id.file;
  }

  lemma LeBack(s: seq<byte>)
    requires |s| == 8
    ensures LeNum(s) < TWO_64 && Le(LeNum(s), 8) == s
  {
    PowValues();
    LeNumBound(s);
    LeOfLeNum(s);
    hide Le, LeNum, Pow256;
  }

  /** A handle is nothing but what it says. */
  lemma CreateOfView(data: seq<byte>)
    requires |data| == SIZE
    ensures CreateInBinary(ViewBinary(data)) == data
  {
    hide Le, LeNum, Pow256;
    LeBack(data[0..8]);
    LeBack(data[8..16]);
    assert data == data[0..8] + data[8..16] + data[16..32];
  }

  /** Different mounts or files never share a handle. */
  lemma CreateIsInjective(a: MountFilehandle, b: MountFilehandle)
    requires CreateInBinary(a) == CreateInBinary(b)
    ensures a == b
  {
    ViewOfCreate(a);
    ViewOfCreate(b);
  }
}
