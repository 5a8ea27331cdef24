/** Which names AEM-Account refuses as addresses (account/IO.c), in terms of the name
    and of the symbols it is stored as. */
module Addresses {
  import opened Bytes
  import opened Addr32
  import Accounts

  /** The octets as the hashing code sees them. */
  function Octets(out: seq<bv8>): (r: seq<byte>)
    ensures |r| == |out|
    ensures forall k :: 0 <= k < |out| ==> r[k] == out[k] as int
  {
    seq(|out|, k requires 0 <= k < |out| => out[k] as int)
  }

  lemma SameValue(x: bv8, y: bv8)
    ensures x as int == y as int ==> x == y
  {
  }

  lemma {:induction false} OctetsInjective(a: seq<bv8>, b: seq<bv8>)
    ensures Octets(a) == Octets(b) ==> a == b
  {
    if Octets(a) == Octets(b) {
      forall k | 0 <= k < |a| ensures a[k] == b[k] {
        assert Octets(a)[k] == Octets(b)[k];
        SameValue(a[k], b[k]);
      }
    }
  }

  lemma FirstOctet(x: bv8)
    ensures x as int >= 128 <==> x & 128 != 0
    ensures x as int / 8 == 0 <==> x >> 3 == 0
  {
  }

  // ---- The two forbidden names --------------------------------------------------------

  /** The symbols of "system". */
  const SYSTEM: seq<bv8> := [25, 30, 25, 26, 14, 20]

  /** Those of "administrator" but the first. */
  const DMINISTRATOR: seq<bv8> := [13, 20, 1, 21, 1, 25, 26, 24, 10, 26, 0, 24]

  const SYSTEM_OCTETS: seq<bv8> := [0x36, 0x7d, 0x9d, 0x3a, 0x80, 0, 0, 0, 0, 0]
  const ADMIN_OCTETS: seq<bv8> := [0xa6, 0xd0, 0x35, 0x0e, 0x75, 0x85, 0x68, 0x18]

  lemma {:induction false} ForbiddenOctets()
    ensures Octets(SYSTEM_OCTETS) == Accounts.ADDR32_SYSTEM && Octets(ADMIN_OCTETS) == Accounts.ADDR32_ADMIN
  {
  }

  lemma {:induction false} EncodedSystem()
    ensures Encoded(SYSTEM) == SYSTEM_OCTETS
  {
    assert Filled(SYSTEM, false) == [25, 30, 25, 26, 14, 20, 0, 0, 0, 0, 0, 0, 0, 0, 0, 0];
  }

  /** A name is stored as the forbidden one exactly when these are its symbols and it ends
      with one of them. */
  lemma {:induction false} StoredAsSystem(name: seq<byte>)
    ensures Stored(name) == SYSTEM_OCTETS <==> !Marked(name) && Symbols(name) == SYSTEM
  {
    hide Packed, First, Symbols, Marked, Field, Filled;
    var v := Normal(name);
    EncodedSystem();
    StoredIsEncoded(name);
    ShieldBit(name);
    if Stored(name) == Encoded(v) {
      SameOctets(v, SYSTEM);
    } else {
      MarkedElsewhere(v);
    }
  }

  /** The mark of a refused last character would show in the octets. */
  lemma {:induction false} MarkedElsewhere(v: seq<bv8>)
    requires |v| < 15
    ensures Packed(Filled(v, true), First(|v|, 0)) != Encoded(SYSTEM)
  {
    hide Packed, First, Field;
    FieldCovers(Filled(v, true), First(|v|, 0), |v|);
    FirstBits(6, 0, 0);
    FieldPacked(Filled(SYSTEM, false), First(6, 0), |v|);
    assert Filled(SYSTEM, false)[|v|] != 31;
  }

  /** The last 64 bits of a name of sixteen symbols are those of ADMIN_OCTETS exactly when
      the third symbol is an A, or differs from one in its top bit only, and the next
      twelve spell the rest of "administrator". */
  lemma {:induction false} StoredAsAdmin(name: seq<byte>)
    requires |Symbols(name)| >= 16
    ensures Stored(name)[2..] == ADMIN_OCTETS <==> Symbols(name)[2] & 15 == 10 && Symbols(name)[3..15] == DMINISTRATOR
  {
    hide Packed, First, Symbols, Marked, Field;
    var v := Normal(name);
    StoredIsEncoded(name);
    var out := Encoded(v);
    assert v[2] == Symbols(name)[2] && v[3..15] == Symbols(name)[3..15];
    forall k | 3 <= k < 15 ensures Field(out, k) == v[k] {
      FirstBits(16, v[15], 0);
      FieldPacked(Filled(v, false), First(16, v[15]), k);
    }
    TailOf(v);
    if out[2..] == ADMIN_OCTETS {
      AdminFields(out);
      assert v[3..15] == DMINISTRATOR;
    }
  }

  lemma {:induction false} TailOf(v: seq<bv8>)
    requires |v| == 16 && forall k :: 0 <= k < 16 ==> v[k] < 32
    ensures Encoded(v)[2] >> 4 == v[2] & 15
    ensures v[2] & 15 == 10 && v[3..15] == DMINISTRATOR ==> Encoded(v)[2..] == ADMIN_OCTETS
  {
  }

  lemma {:induction false} AdminFields(out: seq<bv8>)
    requires |out| == 10 && out[2..] == ADMIN_OCTETS
    ensures out[2] >> 4 == 10
    ensures forall k :: 3 <= k < 15 ==> Field(out, k) == DMINISTRATOR[k - 3]
  {
  }

  /** The octets of an ASCII text. */
  function Text(s: string): (r: seq<byte>)
    requires forall k :: 0 <= k < |s| ==> s[k] as int < 128
    ensures |r| == |s| && forall k :: 0 <= k < |s| ==> r[k] == s[k] as int
  {
    seq(|s|, k requires 0 <= k < |s| => s[k] as int)
  }

  lemma {:induction false} SymbolsSnoc(name: seq<byte>, c: byte)
    ensures Symbols(name + [c]) == Symbols(name) + if CharToAddr32(c) == NONE then [] else [CharToAddr32(c)]
  {
    SymbolsStep(name + [c], |name|);
    assert (name + [c])[..|name|] == name && (name + [c])[..|name| + 1] == name + [c];
  }

  /** The symbols of a text, if they are known character by character. */
  lemma {:induction false} SymbolsOf(name: seq<byte>, v: seq<bv8>)
    requires |name| == |v| && forall k :: 0 <= k < |v| ==> CharToAddr32(name[k]) == v[k] != NONE
    ensures Symbols(name) == v
  {
    hide CharToAddr32;
    if v != [] {
      var n := |v| - 1;
      SymbolsOf(name[..n], v[..n]);
      assert name == name[..n] + [name[n]] && v == v[..n] + [v[n]];
      SymbolsSnoc(name[..n], name[n]);
    }
  }

  lemma {:induction false} NamesSpelled()
    ensures Symbols(Text("system")) == SYSTEM
    ensures Symbols(Text("administrator")) == [10] + DMINISTRATOR
  {
    hide CharToAddr32, Symbols;
    var system, admin := Text("system"), Text("administrator");
    Small();
    SymbolsOf(system, SYSTEM);
    SymbolsOf(admin, [10] + DMINISTRATOR);
  }

  /** The letters the two names are made of. */
  lemma {:induction false} Small()
    ensures Value('s') == 25 && Value('y') == 30 && Value('t') == 26 && Value('e') == 14 && Value('m') == 20
    ensures Value('a') == 10 && Value('d') == 13 && Value('i') == 1 && Value('n') == 21 && Value('r') == 24 && Value('o') == 0
  {
  }

  // ---- The hash of a stored name -----------------------------------------------------------

  /** The first octet of a name of fewer than sixteen symbols holds their number; only
      the empty name has none, the mark of a refused character counting as some. */
  lemma {:induction false} NothingStored(name: seq<byte>)
    requires |Symbols(name)| < 16
    ensures Stored(name)[0] >> 3 == 0 <==> name == []
  {
    hide First, Symbols, Octet0;
    var v := Normal(name);
    if Filled(v, Marked(name))[0] == NONE {
      assert Symbols(name) == [];
      MarkedFirst();
    } else {
      FirstBits(|v|, 0, Filled(v, Marked(name))[0]);
      if v == [] && name != [] { SymbolsNonempty(name); }
      if name == [] { SymbolsNone(name); assert name[..0] == name; }
    }
  }

  lemma MarkedFirst()
    ensures Octet0(First(0, 0), NONE) >> 3 != 0
  {
  }

  lemma {:induction false} SymbolsNonempty(name: seq<byte>)
    requires name != [] && !Marked(name)
    ensures Symbols(name) != []
  {
  }

  /** Which names have no hash and so cannot be addresses: the empty one; "system" in
      any spelling that ends with a letter or digit; and, among those of sixteen or more
      symbols, any whose third to fifteenth symbols read "administrator", the first
      of these up to its top bit. */
  lemma {:induction false} ForbiddenNames(c: Accounts.Config, name: seq<byte>)
    ensures var v, a := Symbols(name), Octets(Stored(name));
      Accounts.AddressHash(c, a) ==
        if |v| >= 16 then (if v[2] & 15 == 10 && v[3..15] == DMINISTRATOR then 0 else c.shieldHash(a))
        else if name == [] || (v == SYSTEM && !Marked(name)) then 0
        else c.normalHash(a)
  {
    hide Stored, Symbols, Marked;
    var out := Stored(name);
    var a := Octets(out);
    FirstOctet(out[0]);
    ShieldBit(name);
    ForbiddenOctets();
    if |Symbols(name)| >= 16 {
      StoredAsAdmin(name);
      assert a[2..] == Octets(out[2..]);
      OctetsInjective(out[2..], ADMIN_OCTETS);
    } else {
      StoredAsSystem(name);
      OctetsInjective(out, SYSTEM_OCTETS);
      NothingStored(name);
    }
  }
}
