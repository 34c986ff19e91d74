/**
 Directories of kernel-src/fs/ext2.c: packed records that tile the blocks of the directory file,
 as a finite map from names to inode numbers. A record is an inode number (four bytes), its size
 (two bytes), the length of its name and a type (one byte each), and the name. Inode number zero
 marks a dead record.
 */
module Ext2Dir {
  import opened Arith
  import opened Common

  type Name = seq<byte>

  // ----- Bytes

  function U16(d: seq<byte>, o: nat): (v: nat)
    requires o + 2 <= |d|
  {
    d[o] as int + 256 * d[o + 1] as int
  }

  function U32(d: seq<byte>, o: nat): (v: nat)
    requires o + 4 <= |d|
  {
    U16(d, o) + 65536 * U16(d, o + 2)
  }

  function Low(v: nat): (x: byte) {
    v % 256
  }

  function Bytes16(v: nat): (s: seq<byte>)
    ensures |s| == 2
  {
    [Low(v), Low(v / 256)]
  }

  function Bytes32(v: nat): (s: seq<byte>)
    ensures |s| == 4
  {
    Bytes16(v % 65536) + Bytes16(v / 65536)
  }

  lemma Bytes16RoundTrip(v: nat)
    requires v < 65536
    ensures U16(Bytes16(v), 0) == v
  {}

  lemma Bytes32RoundTrip(v: nat)
    requires v < 0x1_0000_0000
    ensures U32(Bytes32(v), 0) == v
  {
    Bytes16RoundTrip(v % 65536);
    Bytes16RoundTrip(v / 65536);
  }

  /** The bytes s written over d at an offset. */
  function Write(d: seq<byte>, o: nat, s: seq<byte>): (r: seq<byte>)
    requires o + |s| <= |d|
    ensures |r| == |d| && forall i :: 0 <= i < |d| ==> r[i] == if o <= i < o + |s| then s[i - o] else d[i]
  {
    d[..o] + s + d[o + |s|..]
  }

  /** The length that insertdent gives a record: header and name, rounded up to four bytes. */
  function EntLen(namelen: nat): (n: nat)
    ensures 8 + namelen <= n < 8 + namelen + 4 && n % 4 == 0
  {
    (8 + namelen + 3) / 4 * 4
  }

  function Header(inode: nat, size: nat, namelen: byte, kind: byte): (s: seq<byte>)
    ensures |s| == 8
  {
    Bytes32(inode) + Bytes16(size) + [namelen, kind]
  }

  // ----- Records

  /** The name of a dead record means nothing. */
  datatype Rec = Rec(size: nat, inode: nat, name: Name)

  /** A directory: the record at every offset where one starts, and the offset of every name. */
  datatype Dir = Dir(recs: map<nat, Rec>, at: map<Name, nat>)

  /** The offset within a block. */
  function Into(o: nat, bs: nat): (k: nat)
    requires 0 < bs
  {
    o % bs
  }

  ghost predicate Matches(d: seq<byte>, o: nat, r: Rec) {
    && o + 8 <= |d| && U32(d, o) == r.inode && U16(d, o + 4) == r.size
    && (r.inode != 0 ==> d[o + 6] == |r.name| && o + 8 + |r.name| <= |d| && d[o + 8..o + 8 + |r.name|] == r.name)
  }

  /** A record ends where another starts or at the end, in the block where it starts, and a live
      one has room for its name. */
  ghost predicate Fits(n: nat, recs: map<nat, Rec>, o: nat, bs: nat)
    requires o in recs && 0 < bs
  {
    var r := recs[o];
    && 8 <= r.size && Into(o, bs) + r.size <= bs
    && (o + r.size == n || (o + r.size < n && o + r.size in recs))
    && (r.inode != 0 ==> 1 <= |r.name| <= 255 && EntLen(|r.name|) <= r.size)
  }

  ghost predicate Before(recs: map<nat, Rec>, o: nat, p: nat)
    requires o in recs
  {
    o + recs[o].size <= p
  }

  ghost predicate Geometry(n: nat, recs: map<nat, Rec>, bs: nat) {
    && 264 <= bs < 65536 && Into(n, bs) == 0
    && (n == 0 || 0 in recs)
    && (forall o {:trigger Fits(n, recs, o, bs)} :: o in recs ==> o < n && Fits(n, recs, o, bs))
    && (forall o, p {:trigger Before(recs, o, p)} :: o in recs && p in recs && o < p ==> Before(recs, o, p))
  }

  ghost predicate Stored(d: seq<byte>, recs: map<nat, Rec>) {
    forall o :: o in recs ==> Matches(d, o, recs[o])
  }

  /** Every name has one live record, and every live record is the one of its name. */
  ghost predicate Named(g: Dir) {
    && (forall n :: n in g.at ==> g.at[n] in g.recs && g.recs[g.at[n]].inode != 0 && g.recs[g.at[n]].name == n)
    && (forall o :: o in g.recs && g.recs[o].inode != 0 ==> g.recs[o].name in g.at && g.at[g.recs[o].name] == o)
  }

  ghost predicate DirOk(d: seq<byte>, g: Dir, bs: nat) {
    Geometry(|d|, g.recs, bs) && Stored(d, g.recs) && Named(g)
  }

  /** The map from names to inode numbers that a directory stands for. */
  ghost function Contents(g: Dir): (m: map<Name, nat>)
    requires Named(g)
  {
    map n | n in g.at :: g.recs[g.at[n]].inode
  }

  // ----- The four ways in which the records of a directory change

  /** A record of the same size in the place of another. */
  ghost function Relabelled(recs: map<nat, Rec>, o: nat, inode: nat, name: Name): (recs': map<nat, Rec>)
    requires o in recs
  {
    recs[o := Rec(recs[o].size, inode, name)]
  }

  /** A record cut in two. */
  ghost function Cut(recs: map<nat, Rec>, o: nat, k: nat, inode: nat, name: Name): (recs': map<nat, Rec>)
    requires o in recs && k <= recs[o].size
  {
    recs[o := recs[o].(size := k)][o + k := Rec(recs[o].size - k, inode, name)]
  }

  /** A record joined to the one before it. */
  ghost function Joined(recs: map<nat, Rec>, p: nat, o: nat): (recs': map<nat, Rec>)
    requires p in recs && o in recs
  {
    (recs - {o})[p := recs[p].(size := recs[p].size + recs[o].size)]
  }

  /** A record that fills a new block. */
  ghost function Appended(recs: map<nat, Rec>, n: nat, bs: nat, inode: nat, name: Name): (recs': map<nat, Rec>) {
    recs[n := Rec(bs, inode, name)]
  }

  lemma RelabelledGeometry(n: nat, recs: map<nat, Rec>, bs: nat, o: nat, inode: nat, name: Name)
    requires Geometry(n, recs, bs) && o in recs
    requires inode != 0 ==> 1 <= |name| <= 255 && EntLen(|name|) <= recs[o].size
    ensures Geometry(n, Relabelled(recs, o, inode, name), bs)
  {
    var recs' := Relabelled(recs, o, inode, name);
    forall q | q in recs'
      ensures Fits(n, recs', q, bs)
    {
      assert Fits(n, recs, q, bs);
    }
    forall p, q | p in recs' && q in recs' && p < q
      ensures Before(recs', p, q)
    {
      assert Before(recs, p, q);
    }
  }

  lemma IntoStep(o: nat, k: nat, bs: nat)
    requires 0 < bs && Into(o, bs) + k <= bs
    ensures Into(o + k, bs) == if Into(o, bs) + k == bs then 0 else Into(o, bs) + k
  {
    if Into(o, bs) + k == bs {
      DivModUnique(o + k, bs, o / bs + 1, 0);
    } else {
      DivModUnique(o + k, bs, o / bs, o % bs + k);
    }
  }

  lemma CutGeometry(n: nat, recs: map<nat, Rec>, bs: nat, o: nat, k: nat, inode: nat, name: Name)
    requires Geometry(n, recs, bs) && o in recs && 8 <= k && k + 8 <= recs[o].size
    requires recs[o].inode != 0 ==> EntLen(|recs[o].name|) <= k
    requires inode != 0 ==> 1 <= |name| <= 255 && EntLen(|name|) <= recs[o].size - k
    ensures Geometry(n, Cut(recs, o, k, inode, name), bs)
  {
    hide Into, EntLen;
    var recs' := Cut(recs, o, k, inode, name);
    assert Fits(n, recs, o, bs);
    IntoStep(o, k, bs);
    assert o + k in recs ==> Before(recs, o, o + k);
    forall q | q in recs'
      ensures q < n && Fits(n, recs', q, bs)
    {
      if q != o + k { assert Fits(n, recs, q, bs); }
    }
    forall p, q | p in recs' && q in recs' && p < q
      ensures Before(recs', p, q)
    {
      CutApart(n, recs, bs, o, k, inode, name, p, q);
    }
  }

  lemma CutApart(n: nat, recs: map<nat, Rec>, bs: nat, o: nat, k: nat, inode: nat, name: Name, p: nat, q: nat)
    requires Geometry(n, recs, bs) && o in recs && 0 < k < recs[o].size && p < q
    requires p in Cut(recs, o, k, inode, name) && q in Cut(recs, o, k, inode, name)
    ensures Before(Cut(recs, o, k, inode, name), p, q)
  {
    hide Into, EntLen, Fits;
    if p == o + k {
      assert Before(recs, o, q);
    } else if q == o + k {
      assert p < o ==> Before(recs, p, o);
      assert o < p ==> Before(recs, o, p);
    } else {
      assert Before(recs, p, q);
    }
  }

  lemma JoinedGeometry(n: nat, recs: map<nat, Rec>, bs: nat, p: nat, o: nat)
    requires Geometry(n, recs, bs) && p in recs && o in recs && p + recs[p].size == o && Into(o, bs) != 0
    ensures Geometry(n, Joined(recs, p, o), bs)
  {
    hide Into, EntLen;
    var recs' := Joined(recs, p, o);
    assert Fits(n, recs, p, bs) && Fits(n, recs, o, bs);
    IntoStep(p, recs[p].size, bs);
    forall q | q in recs'
      ensures Fits(n, recs', q, bs)
    {
      assert Fits(n, recs, q, bs);
      assert q != p ==> if q < p then Before(recs, q, p) else Before(recs, p, q);
    }
    forall q, r | q in recs' && r in recs' && q < r
      ensures Before(recs', q, r)
    {
      assert r in recs && r != o && q in recs;
      assert Before(recs, q, r);
      assert o < r ==> Before(recs, o, r);
    }
  }

  lemma EntLenFits(name: Name, bs: nat)
    requires |name| <= 255 && 264 <= bs
    ensures EntLen(|name|) <= bs
  {}

  lemma AppendedGeometry(n: nat, recs: map<nat, Rec>, bs: nat, inode: nat, name: Name)
    requires Geometry(n, recs, bs) && 1 <= |name| <= 255
    ensures Geometry(n + bs, Appended(recs, n, bs, inode, name), bs)
  {
    hide Into, EntLen;
    var recs' := Appended(recs, n, bs, inode, name);
    IntoStep(n, bs, bs);
    EntLenFits(name, bs);
    forall q | q in recs'
      ensures q < n + bs && Fits(n + bs, recs', q, bs)
    {
      if q != n { assert Fits(n, recs, q, bs); }
    }
    forall p, q | p in recs' && q in recs' && p < q
      ensures Before(recs', p, q)
    {
      assert q in recs ==> Fits(n, recs, q, bs);
      assert Fits(n, recs, p, bs);
      if q != n { assert Before(recs, p, q); }
    }
  }

  // ----- The bytes of records

  /** The bytes of a new record, with whatever the padding holds. */
  function Encoded(inode: nat, size: nat, name: Name, kind: byte, pad: seq<byte>): (s: seq<byte>)
    requires |name| <= 255
    ensures |s| == 8 + |name| + |pad|
  {
    Header(inode, size, |name|, kind) + name + pad
  }

  lemma HeaderReads(inode: nat, size: nat, namelen: byte, kind: byte, d: seq<byte>, o: nat)
    requires inode < 0x1_0000_0000 && size < 65536 && o + 8 <= |d|
    requires forall i :: 0 <= i < 8 ==> d[o + i] == Header(inode, size, namelen, kind)[i]
    ensures U32(d, o) == inode && U16(d, o + 4) == size && d[o + 6] == namelen
  {
    var h := Header(inode, size, namelen, kind);
    Bytes32RoundTrip(inode);
    Bytes16RoundTrip(size);
    assert h[..4] == Bytes32(inode) && h[4..6] == Bytes16(size);
    assert d[o] == h[0] && d[o + 1] == h[1] && d[o + 2] == h[2] && d[o + 3] == h[3];
    assert d[o + 4] == h[4] && d[o + 5] == h[5] && d[o + 6] == h[6];
  }

  lemma WrittenMatches(d: seq<byte>, o: nat, inode: nat, size: nat, name: Name, kind: byte, pad: seq<byte>,
                       d': seq<byte>)
    requires inode < 0x1_0000_0000 && size < 65536 && |name| <= 255 && o + 8 + |name| + |pad| <= |d|
    requires d' == Write(d, o, Encoded(inode, size, name, kind, pad))
    ensures Matches(d', o, Rec(size, inode, name))
  {
    var s := Encoded(inode, size, name, kind, pad);
    assert forall i :: 0 <= i < 8 ==> s[i] == Header(inode, size, |name|, kind)[i];
    assert forall i :: 0 <= i < 8 ==> d'[o + i] == s[i];
    HeaderReads(inode, size, |name|, kind, d', o);
    assert d'[o + 8..o + 8 + |name|] == name;
  }

  lemma ResizedMatches(d: seq<byte>, o: nat, r: Rec, k: nat, d': seq<byte>)
    requires Matches(d, o, r) && k < 65536 && d' == Write(d, o + 4, Bytes16(k))
    ensures Matches(d', o, r.(size := k))
  {
    Bytes16RoundTrip(k);
    assert d'[o + 4] == Bytes16(k)[0] && d'[o + 5] == Bytes16(k)[1];
    if r.inode != 0 {
      assert d'[o + 8..o + 8 + |r.name|] == d[o + 8..o + 8 + |r.name|];
    }
  }

  lemma RenumberedMatches(d: seq<byte>, o: nat, r: Rec, inode: nat, d': seq<byte>)
    requires Matches(d, o, r) && inode < 0x1_0000_0000 && (inode != 0 ==> r.inode != 0)
    requires |d'| == |d| && forall i :: 0 <= i < |d| ==>
               if o <= i < o + 4 then d'[i] == Bytes32(inode)[i - o]
               else i == o + 7 || (inode == 0 && i == o + 8) || d'[i] == d[i]
    ensures Matches(d', o, r.(inode := inode))
  {
    Bytes32RoundTrip(inode);
    assert d'[o] == Bytes32(inode)[0] && d'[o + 1] == Bytes32(inode)[1] && d'[o + 2] == Bytes32(inode)[2]
           && d'[o + 3] == Bytes32(inode)[3];
    if inode != 0 {
      assert d'[o + 8..o + 8 + |r.name|] == d[o + 8..o + 8 + |r.name|];
    }
  }

  /** Bytes are different within one record only. */
  ghost predicate SameOutside(d: seq<byte>, d': seq<byte>, o: nat, size: nat) {
    |d| <= |d'| && forall i :: 0 <= i < |d| && !(o <= i < o + size) ==> d'[i] == d[i]
  }

  lemma StoredElsewhere(d: seq<byte>, d': seq<byte>, recs: map<nat, Rec>, bs: nat, o: nat, size: nat, q: nat)
    requires Geometry(|d|, recs, bs) && q in recs && Matches(d, q, recs[q]) && SameOutside(d, d', o, size)
    requires q + recs[q].size <= o || o + size <= q
    ensures Matches(d', q, recs[q])
  {
    assert Fits(|d|, recs, q, bs);
    var r := recs[q];
    assert forall i :: q <= i < q + r.size ==> d'[i] == d[i];
    if r.inode != 0 {
      assert d'[q + 8..q + 8 + |r.name|] == d[q + 8..q + 8 + |r.name|];
    }
  }

  lemma Apart(n: nat, recs: map<nat, Rec>, bs: nat, o: nat, q: nat)
    requires Geometry(n, recs, bs) && o in recs && q in recs && q != o
    ensures q + recs[q].size <= o || o + recs[o].size <= q
  {
    assert if q < o then Before(recs, q, o) else Before(recs, o, q);
  }

  lemma RelabelledStored(d: seq<byte>, d': seq<byte>, recs: map<nat, Rec>, bs: nat, o: nat, inode: nat, name: Name)
    requires Geometry(|d|, recs, bs) && Stored(d, recs) && o in recs && SameOutside(d, d', o, recs[o].size)
    requires Matches(d', o, Rec(recs[o].size, inode, name))
    ensures Stored(d', Relabelled(recs, o, inode, name))
  {
    hide Geometry, Matches, SameOutside;
    forall q | q in recs && q != o
      ensures Matches(d', q, recs[q])
    {
      Apart(|d|, recs, bs, o, q);
      StoredElsewhere(d, d', recs, bs, o, recs[o].size, q);
    }
  }

  lemma CutStored(d: seq<byte>, d': seq<byte>, recs: map<nat, Rec>, bs: nat, o: nat, k: nat, inode: nat, name: Name)
    requires Geometry(|d|, recs, bs) && Stored(d, recs) && o in recs
    requires 0 < k <= recs[o].size && SameOutside(d, d', o, recs[o].size)
    requires Matches(d', o, recs[o].(size := k)) && Matches(d', o + k, Rec(recs[o].size - k, inode, name))
    ensures Stored(d', Cut(recs, o, k, inode, name))
  {
    hide Geometry, Matches, SameOutside;
    forall q | q in recs && q != o
      ensures Matches(d', q, recs[q])
    {
      Apart(|d|, recs, bs, o, q);
      StoredElsewhere(d, d', recs, bs, o, recs[o].size, q);
    }
  }

  lemma JoinedStored(d: seq<byte>, d': seq<byte>, recs: map<nat, Rec>, bs: nat, p: nat, o: nat)
    requires Geometry(|d|, recs, bs) && Stored(d, recs) && p in recs && o in recs && SameOutside(d, d', p, recs[p].size)
    requires Matches(d', p, recs[p].(size := recs[p].size + recs[o].size))
    ensures Stored(d', Joined(recs, p, o))
  {
    hide Geometry, Matches, SameOutside;
    forall q | q in recs && q != p
      ensures Matches(d', q, recs[q])
    {
      Apart(|d|, recs, bs, p, q);
      StoredElsewhere(d, d', recs, bs, p, recs[p].size, q);
    }
  }

  lemma AppendedStored(d: seq<byte>, d': seq<byte>, recs: map<nat, Rec>, bs: nat, inode: nat, name: Name)
    requires Geometry(|d|, recs, bs) && Stored(d, recs) && SameOutside(d, d', |d|, bs)
    requires Matches(d', |d|, Rec(bs, inode, name))
    ensures Stored(d', Appended(recs, |d|, bs, inode, name))
  {
    hide Matches, SameOutside;
    forall q | q in recs
      ensures Matches(d', q, recs[q])
    {
      assert Fits(|d|, recs, q, bs);
      StoredElsewhere(d, d', recs, bs, |d|, bs, q);
    }
  }

  // ----- Names

  /** A live record under a new name at an offset where no other name was. */
  lemma NameAdded(g: Dir, recs': map<nat, Rec>, o: nat, name: Name)
    requires Named(g) && name !in g.at && o in recs' && recs'[o].inode != 0 && recs'[o].name == name
    requires forall q :: q in g.recs && g.recs[q].inode != 0 ==>
               q in recs' && recs'[q].inode == g.recs[q].inode && recs'[q].name == g.recs[q].name
    requires forall q :: q in recs' && q != o && recs'[q].inode != 0 ==> q in g.recs && g.recs[q].inode != 0
    requires o in g.recs ==> g.recs[o].inode == 0
    ensures Named(Dir(recs', g.at[name := o]))
    ensures Contents(Dir(recs', g.at[name := o])) == Contents(g)[name := recs'[o].inode]
  {}

  lemma SameNames(g: Dir)
    requires Named(g)
    ensures Contents(g).Keys == g.at.Keys
  {}

  lemma NameAppended(n: nat, g: Dir, bs: nat, inode: nat, name: Name)
    requires Geometry(n, g.recs, bs) && Named(g) && name !in Contents(g) && inode != 0
    ensures Named(Dir(Appended(g.recs, n, bs, inode, name), g.at[name := n]))
    ensures Contents(Dir(Appended(g.recs, n, bs, inode, name), g.at[name := n])) == Contents(g)[name := inode]
  {
    hide Geometry, Named, Contents;
    AppendedIsNew(n, g.recs, bs);
    SameNames(g);
    NameAdded(g, Appended(g.recs, n, bs, inode, name), n, name);
  }

  lemma NameReused(g: Dir, o: nat, inode: nat, name: Name)
    requires Named(g) && name !in Contents(g) && o in g.recs && g.recs[o].inode == 0 && inode != 0
    ensures Named(Dir(Relabelled(g.recs, o, inode, name), g.at[name := o]))
    ensures Contents(Dir(Relabelled(g.recs, o, inode, name), g.at[name := o])) == Contents(g)[name := inode]
  {
    hide Named, Contents;
    SameNames(g);
    NameAdded(g, Relabelled(g.recs, o, inode, name), o, name);
  }

  lemma NameCut(n: nat, g: Dir, bs: nat, o: nat, k: nat, inode: nat, name: Name)
    requires Geometry(n, g.recs, bs) && Named(g) && name !in Contents(g)
    requires o in g.recs && 0 < k < g.recs[o].size && inode != 0
    ensures Named(Dir(Cut(g.recs, o, k, inode, name), g.at[name := o + k]))
    ensures Contents(Dir(Cut(g.recs, o, k, inode, name), g.at[name := o + k])) == Contents(g)[name := inode]
  {
    hide Geometry, Named, Contents;
    CutIsNew(n, g.recs, bs, o, k);
    SameNames(g);
    NameAdded(g, Cut(g.recs, o, k, inode, name), o + k, name);
  }

  lemma NameRemoved(g: Dir, recs': map<nat, Rec>, o: nat)
    requires Named(g) && o in g.recs && g.recs[o].inode != 0 && (o in recs' ==> recs'[o].inode == 0)
    requires forall q :: q in g.recs && q != o && g.recs[q].inode != 0 ==>
               q in recs' && recs'[q].inode == g.recs[q].inode && recs'[q].name == g.recs[q].name
    requires forall q :: q in recs' && recs'[q].inode != 0 ==> q in g.recs && g.recs[q].inode != 0
    ensures Named(Dir(recs', g.at - {g.recs[o].name}))
    ensures Contents(Dir(recs', g.at - {g.recs[o].name})) == Contents(g) - {g.recs[o].name}
  {}

  lemma NameRenumbered(g: Dir, o: nat, inode: nat)
    requires Named(g) && o in g.recs && g.recs[o].inode != 0 && inode != 0
    ensures Named(Dir(Relabelled(g.recs, o, inode, g.recs[o].name), g.at))
    ensures Contents(Dir(Relabelled(g.recs, o, inode, g.recs[o].name), g.at)) == Contents(g)[g.recs[o].name := inode]
  {}

  // ----- Scans

  /** An offset that a scan can be at: the start of a record, or the end. */
  ghost predicate IsStop(n: nat, recs: map<nat, Rec>, o: nat) {
    o == n || (o < n && o in recs)
  }

  ghost predicate NotBefore(recs: map<nat, Rec>, name: Name, offset: nat) {
    forall o :: o in recs && o < offset && recs[o].inode != 0 ==> recs[o].name != name
  }

  /** The last record passed by a scan ends at the offset where the scan is. */
  ghost predicate IsLast(recs: map<nat, Rec>, offset: nat, lastSize: nat) {
    if offset == 0 then lastSize == 0
    else 0 < lastSize <= offset && offset - lastSize in recs && recs[offset - lastSize].size == lastSize
  }

  /** The test for a live record with a name. */
  predicate Bears(d: seq<byte>, o: nat, name: Name)
    requires o + 8 <= |d|
  {
    |name| == d[o + 6] as int && U32(d, o) != 0 && o + 8 + |name| <= |d| && d[o + 8..o + 8 + |name|] == name
  }

  lemma ReadRecord(d: seq<byte>, recs: map<nat, Rec>, o: nat, name: Name)
    requires Stored(d, recs) && o in recs
    ensures o + 8 <= |d| && U16(d, o + 4) == recs[o].size
    ensures Bears(d, o, name) <==> recs[o].inode != 0 && recs[o].name == name
  {
    assert Matches(d, o, recs[o]);
  }

  lemma NotAtFirst(recs: map<nat, Rec>, name: Name)
    ensures NotBefore(recs, name, 0)
  {}

  lemma NotStep(n: nat, recs: map<nat, Rec>, bs: nat, name: Name, o: nat)
    requires Geometry(n, recs, bs) && o in recs && NotBefore(recs, name, o)
    requires !(recs[o].inode != 0 && recs[o].name == name)
    ensures NotBefore(recs, name, o + recs[o].size)
  {
    hide Geometry;
    NextStop(n, recs, bs, o);
  }

  lemma NextStop(n: nat, recs: map<nat, Rec>, bs: nat, o: nat)
    requires Geometry(n, recs, bs) && o in recs
    ensures 8 <= recs[o].size < 65536 && IsStop(n, recs, o + recs[o].size)
    ensures recs[o].inode != 0 ==> 1 <= |recs[o].name| <= 255 && EntLen(|recs[o].name|) <= recs[o].size
    ensures forall q :: q in recs && q < o + recs[o].size ==> q <= o
  {
    assert Fits(n, recs, o, bs);
    forall q | q in recs && o < q
      ensures o + recs[o].size <= q
    {
      assert Before(recs, o, q);
    }
  }

  lemma FirstStop(n: nat, recs: map<nat, Rec>, bs: nat)
    requires Geometry(n, recs, bs)
    ensures IsStop(n, recs, 0)
  {
    assert 0 in recs ==> Fits(n, recs, 0, bs);
  }

  lemma NameThere(g: Dir, o: nat, name: Name)
    requires Named(g) && o in g.recs && g.recs[o].inode != 0 && g.recs[o].name == name
    ensures name in Contents(g) && Contents(g)[name] == g.recs[o].inode
  {}

  lemma NameNowhere(n: nat, g: Dir, bs: nat, name: Name)
    requires Geometry(n, g.recs, bs) && Named(g) && NotBefore(g.recs, name, n)
    ensures name !in Contents(g)
  {
    forall o | o in g.recs
      ensures o < n
    {
      assert Fits(n, g.recs, o, bs);
    }
  }

  /** The records tile the directory: every byte is in exactly one record. */
  lemma Tiled(n: nat, recs: map<nat, Rec>, bs: nat, x: nat) returns (o: nat)
    requires Geometry(n, recs, bs) && x < n
    ensures o in recs && o <= x < o + recs[o].size
    ensures forall q :: q in recs && q <= x < q + recs[q].size ==> q == o
  {
    hide Into, EntLen;
    FirstStop(n, recs, bs);
    o := TiledFrom(n, recs, bs, 0, x);
    forall q | q in recs && q <= x < q + recs[q].size
      ensures q == o
    {
      if q != o { Apart(n, recs, bs, o, q); }
    }
  }

  lemma {:induction false} TiledFrom(n: nat, recs: map<nat, Rec>, bs: nat, from: nat, x: nat) returns (o: nat)
    requires Geometry(n, recs, bs) && from in recs && from <= x < n
    ensures o in recs && o <= x < o + recs[o].size
    decreases x - from
  {
    hide Geometry;
    NextStop(n, recs, bs, from);
    if x < from + recs[from].size {
      o := from;
    } else {
      o := TiledFrom(n, recs, bs, from + recs[from].size, x);
    }
  }

  /** Every block of the directory starts with a record. */
  lemma BlockStarts(n: nat, recs: map<nat, Rec>, bs: nat, x: nat)
    requires Geometry(n, recs, bs) && x < n && Into(x, bs) == 0
    ensures x in recs
  {
    hide Into, EntLen;
    var o := Tiled(n, recs, bs, x);
    assert Fits(n, recs, o, bs);
    IntoStep(o, x - o, bs);
  }

  /** Nothing changes outside of the bytes that are written back. */
  ghost predicate OnlyAt(d: seq<byte>, d': seq<byte>, from: nat, count: nat) {
    |d'| == |d| && from + count <= |d| && forall i :: 0 <= i < |d| && !(from <= i < from + count) ==> d'[i] == d[i]
  }

  lemma WrittenBack(d: seq<byte>, d': seq<byte>, from: nat, count: nat)
    requires OnlyAt(d, d', from, count)
    ensures Write(d, from, d'[from..from + count]) == d'
  {}

  class Directory {
    const blockSize: nat
    var data: seq<byte>
    ghost var dir: Dir

    ghost predicate Valid()
      reads this
    {
      DirOk(data, dir, blockSize)
    }

    /** A directory of no blocks. */
    constructor (blockSize: nat)
      requires 264 <= blockSize < 65536
      ensures Valid() && Contents(dir) == map[] && data == [] && this.blockSize == blockSize
    {
      IntoZero(blockSize);
      this.blockSize, data, dir := blockSize, [], Dir(map[], map[]);
    }

    /** The buffer that the operations load a directory into. */
    constructor Load(blockSize: nat, data: seq<byte>, ghost dir: Dir)
      requires DirOk(data, dir, blockSize)
      ensures Valid() && this.data == data && this.dir == dir && this.blockSize == blockSize
    {
      this.blockSize, this.data, this.dir := blockSize, data, dir;
    }

    /** The scan of findindir and of removedent. */
    method Seek(name: Name) returns (found: bool, offset: nat, lastSize: nat)
      requires Valid()
      ensures IsLast(dir.recs, offset, lastSize)
      ensures found ==> offset in dir.recs && dir.recs[offset].inode != 0 && dir.recs[offset].name == name
      ensures !found ==> name !in Contents(dir)
    {
      hide Geometry, Named, Contents, Stored, NotBefore, Bears, Matches;
      NotAtFirst(dir.recs, name);
      found, offset, lastSize := false, 0, 0;
      FirstStop(|data|, dir.recs, blockSize);
      while offset < |data| && !found
        invariant IsStop(|data|, dir.recs, offset) && IsLast(dir.recs, offset, lastSize)
        invariant NotBefore(dir.recs, name, offset)
        invariant found ==> offset in dir.recs && dir.recs[offset].inode != 0 && dir.recs[offset].name == name
        decreases |data| - offset, !found
      {
        NextStop(|data|, dir.recs, blockSize, offset);
        ReadRecord(data, dir.recs, offset, name);
        if Bears(data, offset, name) {
          found := true;
        } else {
          NotStep(|data|, dir.recs, blockSize, name, offset);
          lastSize := U16(data, offset + 4);
          offset := offset + lastSize;
        }
      }
      if !found {
        NameNowhere(|data|, dir, blockSize, name);
      }
    }

    /** findindir. Zero stands for ENOENT. */
    method Find(name: Name) returns (inode: nat)
      requires Valid()
      ensures inode == if name in Contents(dir) then Contents(dir)[name] else 0
      ensures inode == 0 <==> name !in Contents(dir)
    {
      hide Geometry, Named, Contents;
      var found, offset, _ := Seek(name);
      inode := 0;
      if found {
        NameThere(dir, offset, name);
        assert Matches(data, offset, dir.recs[offset]);
        inode := U32(data, offset);
      }
    }

    /** findindir with a node to switch to: the record is made to name another inode. */
    method Switch(name: Name, id: nat, kind: byte) returns (inode: nat, from: nat, count: nat)
      requires Valid() && 0 < id < 0x1_0000_0000
      modifies this
      ensures Valid() && inode == if name in old(Contents(dir)) then old(Contents(dir))[name] else 0
      ensures Contents(dir) == if inode != 0 then old(Contents(dir))[name := id] else old(Contents(dir))
      ensures OnlyAt(old(data), data, from, count)
    {
      hide Geometry, Named, Contents, Write, Bytes32;
      var found, o, _ := Seek(name);
      inode, from, count := 0, 0, 0;
      if found {
        NextStop(|data|, dir.recs, blockSize, o);
        NameThere(dir, o, name);
        assert Matches(data, o, dir.recs[o]);
        inode, from, count := U32(data, o), o, U16(data, o + 4);
        data := Write(data, o, Bytes32(id));
        data := Write(data, o + 7, [kind]);
        RenumberedMatches(old(data), o, dir.recs[o], id, data);
        RelabelledStored(old(data), data, dir.recs, blockSize, o, id, name);
        RelabelledGeometry(|data|, dir.recs, blockSize, o, id, name);
        NameRenumbered(dir, o, id);
        dir := Dir(Relabelled(dir.recs, o, id, name), dir.at);
      }
    }

    /** removedent. Zero stands for ENOENT. The record that has changed is written back. */
    method Remove(name: Name) returns (inode: nat, from: nat, count: nat)
      requires Valid()
      modifies this
      ensures Valid() && inode == if name in old(Contents(dir)) then old(Contents(dir))[name] else 0
      ensures Contents(dir) == old(Contents(dir)) - {name} && OnlyAt(old(data), data, from, count)
    {
      var found, o, lastSize := Seek(name);
      inode, from, count := 0, 0, 0;
      if found {
        assert Matches(data, o, dir.recs[o]);
        NameThere(dir, o, name);
        inode := U32(data, o);
        if Into(o, blockSize) != 0 {
          from, count := JoinLast(o, lastSize);
        } else {
          from, count := Bury(o);
        }
      }
    }

    /** The record before takes over the room of a removed record in the same block. */
    method JoinLast(o: nat, lastSize: nat) returns (from: nat, count: nat)
      requires Valid() && o in dir.recs && dir.recs[o].inode != 0
      requires IsLast(dir.recs, o, lastSize) && Into(o, blockSize) != 0
      modifies this
      ensures Valid() && Contents(dir) == old(Contents(dir)) - {old(dir).recs[o].name}
      ensures OnlyAt(old(data), data, from, count)
    {
      hide Geometry, Named, Contents, Write, Bytes16, Into;
      JoinedFits(|data|, dir.recs, blockSize, lastSize, o);
      Inside(|data|, dir.recs, blockSize, o);
      ghost var p, name := o - lastSize, dir.recs[o].name;
      assert Matches(data, o - lastSize, dir.recs[o - lastSize]) && Matches(data, o, dir.recs[o]);
      var size := U16(data, o - lastSize + 4) + U16(data, o + 4);
      from, count := o - lastSize, size;
      data := Write(data, o - lastSize + 4, Bytes16(size));
      ResizedMatches(old(data), p, dir.recs[p], size, data);
      JoinedStored(old(data), data, dir.recs, blockSize, p, o);
      JoinedGeometry(|data|, dir.recs, blockSize, p, o);
      NameRemoved(dir, Joined(dir.recs, p, o), o);
      dir := Dir(Joined(dir.recs, p, o), dir.at - {name});
    }

    /** A removed record at the start of a block stays as a dead one. */
    method Bury(o: nat) returns (from: nat, count: nat)
      requires Valid() && o in dir.recs && dir.recs[o].inode != 0
      modifies this
      ensures Valid() && Contents(dir) == old(Contents(dir)) - {old(dir).recs[o].name}
      ensures OnlyAt(old(data), data, from, count)
    {
      hide Geometry, Named, Contents, Write, Bytes32, Into;
      NextStop(|data|, dir.recs, blockSize, o);
      ghost var name := dir.recs[o].name;
      assert Matches(data, o, dir.recs[o]);
      from, count := o, U16(data, o + 4);
      data := Write(data, o, Bytes32(0));
      data := Write(data, o + 8, [0]);
      RenumberedMatches(old(data), o, dir.recs[o], 0, data);
      RelabelledStored(old(data), data, dir.recs, blockSize, o, 0, name);
      RelabelledGeometry(|data|, dir.recs, blockSize, o, 0, name);
      NameRemoved(dir, Relabelled(dir.recs, o, 0, name), o);
      dir := Dir(Relabelled(dir.recs, o, 0, name), dir.at - {name});
    }

    /** The scan of insertdent for the first record with room to spare. */
    method SeekRoom(entLen: nat) returns (found: bool, offset: nat, trueSize: nat, freeSize: nat)
      requires Valid()
      ensures found ==> offset in dir.recs && freeSize + trueSize == dir.recs[offset].size && entLen <= freeSize
      ensures found ==> trueSize == if dir.recs[offset].inode == 0 then 0 else EntLen(|dir.recs[offset].name|)
      ensures found ==> NoRoomBefore(dir.recs, entLen, offset)
      ensures found <==> !NoRoom(dir.recs, entLen)
    {
      hide Geometry, Named, EntLen, NoRoomBefore;
      NoRoomAtFirst(dir.recs, entLen);
      found, offset, trueSize, freeSize := false, 0, 0, 0;
      FirstStop(|data|, dir.recs, blockSize);
      while offset < |data| && !found
        invariant IsStop(|data|, dir.recs, offset)
        invariant NoRoomBefore(dir.recs, entLen, offset)
        invariant found ==> offset in dir.recs && freeSize + trueSize == dir.recs[offset].size && entLen <= freeSize
        invariant found ==> trueSize == if dir.recs[offset].inode == 0 then 0 else EntLen(|dir.recs[offset].name|)
        decreases |data| - offset, !found
      {
        NextStop(|data|, dir.recs, blockSize, offset);
        assert Matches(data, offset, dir.recs[offset]);
        trueSize := if U32(data, offset) == 0 then 0 else EntLen(data[offset + 6] as int);
        freeSize := U16(data, offset + 4) - trueSize;
        if entLen <= freeSize {
          found := true;
        } else {
          NoRoomStep(|data|, dir.recs, blockSize, entLen, offset);
          offset := offset + U16(data, offset + 4);
        }
      }
      if !found { NoRoomAtAll(|data|, dir.recs, blockSize, entLen); }
    }

    /** insertdent of a name that is not there: a record is split, a dead one is used again, or the
        directory grows by a block, whose old contents are arbitrary. */
    method Insert(name: Name, inode: nat, kind: byte, pad: seq<byte>, block: seq<byte>,
                  canGrow: bool) returns (ok: bool, from: nat, count: nat)
      requires Valid() && 1 <= |name| <= 255 && name !in Contents(dir) && 0 < inode < 0x1_0000_0000
      requires 8 + |name| + |pad| == EntLen(|name|) && |block| == blockSize
      modifies this
      ensures Valid()
      ensures ok ==> Contents(dir) == old(Contents(dir))[name := inode]
      ensures !ok ==> data == old(data) && dir == old(dir) && !canGrow
      ensures |data| == old(|data|) || |data| == old(|data|) + blockSize
      ensures OnlyAt(if |data| == old(|data|) then old(data) else old(data) + block, data, from, count)
      ensures |data| != old(|data|) <==> ok && NoRoom(old(dir).recs, EntLen(|name|))
    {
      hide Geometry, Named, Contents, EntLen, Encoded;
      BlockFits(|data|, dir.recs, blockSize, name);
      var found, o, trueSize, freeSize := SeekRoom(EntLen(|name|));
      ok := true;
      if !found {
        if !canGrow {
          return false, 0, 0;
        }
        from, count := Extend(name, inode, kind, pad, block);
      } else if trueSize == 0 {
        from, count := Reuse(o, name, inode, kind, pad);
      } else {
        from, count := Split(o, trueSize, name, inode, kind, pad);
      }
    }

    method Extend(name: Name, inode: nat, kind: byte, pad: seq<byte>, block: seq<byte>) returns (from: nat, count: nat)
      requires Valid() && 1 <= |name| <= 255 && name !in Contents(dir) && 0 < inode < 0x1_0000_0000
      requires 8 + |name| + |pad| == EntLen(|name|) && |block| == blockSize
      modifies this
      ensures Valid() && Contents(dir) == old(Contents(dir))[name := inode] && |data| == old(|data|) + blockSize
      ensures OnlyAt(old(data) + block, data, from, count)
    {
      hide Named, Contents, EntLen, Encoded, Geometry, Stored, Write, Appended;
      BlockFits(|data|, dir.recs, blockSize, name);
      ghost var n, grown := |data|, data + block;
      from, count := |data|, EntLen(|name|);
      data := data + block;
      data := Write(data, |data| - blockSize, Encoded(inode, blockSize, name, kind, pad));
      WrittenMatches(grown, n, inode, blockSize, name, kind, pad, data);
      AppendedStored(old(data), data, dir.recs, blockSize, inode, name);
      AppendedGeometry(n, dir.recs, blockSize, inode, name);
      NameAppended(n, dir, blockSize, inode, name);
      dir := Dir(Appended(dir.recs, n, blockSize, inode, name), dir.at[name := n]);
    }

    method Reuse(o: nat, name: Name, inode: nat, kind: byte, pad: seq<byte>) returns (from: nat, count: nat)
      requires Valid() && 1 <= |name| <= 255 && name !in Contents(dir) && 0 < inode < 0x1_0000_0000
      requires 8 + |name| + |pad| == EntLen(|name|) && o in dir.recs
      requires dir.recs[o].inode == 0 && EntLen(|name|) <= dir.recs[o].size
      modifies this
      ensures Valid() && Contents(dir) == old(Contents(dir))[name := inode] && OnlyAt(old(data), data, from, count)
    {
      hide Geometry, Named, Contents, EntLen, Encoded, Write, Bytes16, Relabelled;
      NextStop(|data|, dir.recs, blockSize, o);
      Inside(|data|, dir.recs, blockSize, o);
      assert Matches(data, o, dir.recs[o]);
      var size := U16(data, o + 4);
      from, count := o, size;
      data := Write(data, o + 4, Bytes16(0));
      ghost var middle := data;
      data := Write(data, o, Encoded(inode, size, name, kind, pad));
      WrittenMatches(middle, o, inode, size, name, kind, pad, data);
      RelabelledStored(old(data), data, dir.recs, blockSize, o, inode, name);
      RelabelledGeometry(|data|, dir.recs, blockSize, o, inode, name);
      NameReused(dir, o, inode, name);
      dir := Dir(Relabelled(dir.recs, o, inode, name), dir.at[name := o]);
    }

    method Split(o: nat, trueSize: nat, name: Name, inode: nat, kind: byte, pad: seq<byte>)
      returns (from: nat, count: nat)
      requires Valid() && 1 <= |name| <= 255 && name !in Contents(dir) && 0 < inode < 0x1_0000_0000
      requires 8 + |name| + |pad| == EntLen(|name|) && o in dir.recs && dir.recs[o].inode != 0
      requires trueSize == EntLen(|dir.recs[o].name|) && trueSize + EntLen(|name|) <= dir.recs[o].size
      modifies this
      ensures Valid() && Contents(dir) == old(Contents(dir))[name := inode] && OnlyAt(old(data), data, from, count)
    {
      hide Geometry, Named, Contents, Encoded, Write, Bytes16, Cut, EntLen;
      NextStop(|data|, dir.recs, blockSize, o);
      Inside(|data|, dir.recs, blockSize, o);
      assert Matches(data, o, dir.recs[o]);
      var freeSize := U16(data, o + 4) - trueSize;
      from, count := o, U16(data, o + 4);
      data := Write(data, o + 4, Bytes16(trueSize));
      ghost var middle := data;
      data := Write(data, o + trueSize, Encoded(inode, freeSize, name, kind, pad));
      ResizedMatches(old(data), o, dir.recs[o], trueSize, middle);
      StillMatches(middle, data, o, dir.recs[o].(size := trueSize));
      WrittenMatches(middle, o + trueSize, inode, freeSize, name, kind, pad, data);
      CutStored(old(data), data, dir.recs, blockSize, o, trueSize, inode, name);
      CutGeometry(|data|, dir.recs, blockSize, o, trueSize, inode, name);
      NameCut(|data|, dir, blockSize, o, trueSize, inode, name);
      dir := Dir(Cut(dir.recs, o, trueSize, inode, name), dir.at[name := o + trueSize]);
    }
  }

  /** A record that insertdent can use: what it does not need itself is enough. */
  predicate HasRoom(r: Rec, entLen: nat) {
    entLen + (if r.inode == 0 then 0 else EntLen(|r.name|)) <= r.size
  }

  ghost predicate NoRoom(recs: map<nat, Rec>, entLen: nat) {
    forall o :: o in recs ==> !HasRoom(recs[o], entLen)
  }

  ghost predicate NoRoomBefore(recs: map<nat, Rec>, entLen: nat, offset: nat) {
    forall o :: o in recs && o < offset ==> !HasRoom(recs[o], entLen)
  }

  lemma NoRoomAtFirst(recs: map<nat, Rec>, entLen: nat)
    ensures NoRoomBefore(recs, entLen, 0)
  {}

  lemma NoRoomStep(n: nat, recs: map<nat, Rec>, bs: nat, entLen: nat, o: nat)
    requires Geometry(n, recs, bs) && o in recs && NoRoomBefore(recs, entLen, o) && !HasRoom(recs[o], entLen)
    ensures NoRoomBefore(recs, entLen, o + recs[o].size)
  {
    hide Geometry, HasRoom;
    NextStop(n, recs, bs, o);
  }

  lemma NoRoomAtAll(n: nat, recs: map<nat, Rec>, bs: nat, entLen: nat)
    requires Geometry(n, recs, bs) && NoRoomBefore(recs, entLen, n)
    ensures NoRoom(recs, entLen)
  {
    AllBefore(n, recs, bs);
  }

  lemma AllBefore(n: nat, recs: map<nat, Rec>, bs: nat)
    requires Geometry(n, recs, bs)
    ensures forall o :: o in recs ==> o < n
  {
    forall o | o in recs
      ensures o < n
    {
      assert Fits(n, recs, o, bs);
    }
  }

  lemma BlockFits(n: nat, recs: map<nat, Rec>, bs: nat, name: Name)
    requires Geometry(n, recs, bs) && |name| <= 255
    ensures bs < 65536 && EntLen(|name|) <= bs
  {}

  lemma IntoZero(bs: nat)
    requires 0 < bs
    ensures Into(0, bs) == 0
  {}

  lemma AppendedIsNew(n: nat, recs: map<nat, Rec>, bs: nat)
    requires Geometry(n, recs, bs)
    ensures n !in recs
  {
    AllBefore(n, recs, bs);
  }

  lemma Inside(n: nat, recs: map<nat, Rec>, bs: nat, o: nat)
    requires Geometry(n, recs, bs) && o in recs
    ensures o + recs[o].size <= n
  {
    assert Fits(n, recs, o, bs);
  }

  lemma CutIsNew(n: nat, recs: map<nat, Rec>, bs: nat, o: nat, k: nat)
    requires Geometry(n, recs, bs) && o in recs && 0 < k < recs[o].size
    ensures o + k !in recs
  {
    assert o + k in recs ==> Before(recs, o, o + k);
  }

  lemma StillMatches(d: seq<byte>, d': seq<byte>, o: nat, r: Rec)
    requires Matches(d, o, r) && |d'| == |d| && r.inode != 0 && 8 + |r.name| <= r.size
    requires forall i :: o <= i < o + r.size && i < |d| ==> d'[i] == d[i]
    ensures Matches(d', o, r)
  {
    assert d'[o + 8..o + 8 + |r.name|] == d[o + 8..o + 8 + |r.name|];
  }

  lemma JoinedFits(n: nat, recs: map<nat, Rec>, bs: nat, lastSize: nat, o: nat)
    requires Geometry(n, recs, bs) && o in recs && IsLast(recs, o, lastSize) && Into(o, bs) != 0
    ensures var p := o - lastSize;
            0 <= p && p + 8 <= o && p in recs && recs[p].size == lastSize && lastSize + recs[o].size < 65536
  {
    hide Into, EntLen;
    IntoZero(bs);
    var p := o - lastSize;
    JoinedGeometry(n, recs, bs, p, o);
    assert Fits(n, Joined(recs, p, o), p, bs) && Fits(n, recs, p, bs);
  }
}
