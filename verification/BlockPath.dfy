/** The names of checkpoint files (src/checkpoint/CheckpointStore.cpp, src/checkpoint/AtomicFileCommit.cpp):
    two blocks share a name only if they are the same block of the same computation, and neither the
    manifest nor a temporary file can be mistaken for a block. */
module BlockPath {
  import opened CheckpointTypes
  import opened Sequences
  import I = ComputationIdentity

  function Digit(d: nat): char
    requires d < 10
  {
    '0' + d as char
  }

  predicate IsDigit(c: char) {
    '0' <= c <= '9'
  }

  /** `std::to_string` of an unsigned number. */
  function Decimal(n: nat): (text: string)
    ensures text != [] && (|text| == 1 <==> n < 10) && forall c | c in text :: IsDigit(c)
  {
    if n < 10 then [Digit(n)] else Decimal(n / 10) + [Digit(n % 10)]
  }

  lemma {:induction false} DecimalOneToOne(m: nat, n: nat)
    requires Decimal(m) == Decimal(n)
    ensures m == n
  {
    var text := Decimal(m);
    if m >= 10 && n >= 10 {
      assert Decimal(m / 10) == text[..|text| - 1] == Decimal(n / 10);
      DecimalOneToOne(m / 10, n / 10);
      assert Digit(m % 10) == text[|text| - 1] == Digit(n % 10);
    }
  }

  /** A number ends where the digits end. */
  predicate Ends(rest: string) {
    rest != [] ==> !IsDigit(rest[0])
  }

  lemma SameDigits(p: string, x: string, q: string, y: string)
    requires Ends(x) && forall c | c in q :: IsDigit(c)
    ensures |p| < |q| ==> p + x != q + y
  {
    if |p| < |q| {
      assert (q + y)[|p|] == q[|p|] && q[|p|] in q;
      assert x != [] ==> (p + x)[|p|] == x[0];
      assert x == [] ==> |p + x| < |q + y|;
    }
  }

  lemma NumberThenRest(m: nat, x: string, n: nat, y: string)
    requires Decimal(m) + x == Decimal(n) + y && Ends(x) && Ends(y)
    ensures m == n && x == y
  {
    var whole := Decimal(m) + x;
    SameDigits(Decimal(m), x, Decimal(n), y);
    SameDigits(Decimal(n), y, Decimal(m), x);
    var i := |Decimal(m)|;
    assert Decimal(m) == whole[..i] == Decimal(n) && x == whole[i..] == y;
    DecimalOneToOne(m, n);
  }

  lemma RestThenDigits(a: string, p: string, b: string, q: string)
    requires forall c | c in q :: IsDigit(c)
    ensures |p| < |q| ==> a + "." + p != b + "." + q
  {
    var x, y := a + "." + p, b + "." + q;
    if |p| < |q| && |x| == |y| {
      assert x[|a|] == '.';
      assert y[|a|] == q[|a| - |b| - 1] && q[|a| - |b| - 1] in q;
    }
  }

  lemma LastNumber(a: string, m: nat, b: string, n: nat)
    requires a + "." + Decimal(m) == b + "." + Decimal(n)
    ensures m == n
  {
    RestThenDigits(a, Decimal(m), b, Decimal(n));
    RestThenDigits(b, Decimal(n), a, Decimal(m));
    var x, k := a + "." + Decimal(m), |a| + 1;
    assert Decimal(m) == x[k..] == Decimal(n);
    DecimalOneToOne(m, n);
  }

  // ---------- labelled numbers, one after another ----------

  datatype Labelled = Labelled(tag: string, number: nat)

  function Joined(parts: seq<Labelled>, suffix: string): string {
    if parts == [] then suffix else parts[0].tag + Decimal(parts[0].number) + Joined(parts[1..], suffix)
  }

  /** Tags that no number can run into. */
  predicate Separated(parts: seq<Labelled>) {
    forall i | 0 <= i < |parts| :: parts[i].tag != [] && !IsDigit(parts[i].tag[0])
  }

  predicate SameTags(a: seq<Labelled>, b: seq<Labelled>) {
    |a| == |b| && forall i | 0 <= i < |a| :: a[i].tag == b[i].tag
  }

  lemma {:induction false} JoinedEnds(parts: seq<Labelled>, suffix: string)
    requires Separated(parts) && Ends(suffix)
    ensures Ends(Joined(parts, suffix))
  {
    if parts != [] {
      assert Joined(parts, suffix)[0] == parts[0].tag[0];
    }
  }

  lemma {:induction false} JoinedOneToOne(a: seq<Labelled>, b: seq<Labelled>, suffix: string)
    requires Separated(a) && SameTags(a, b) && Ends(suffix)
    requires Joined(a, suffix) == Joined(b, suffix)
    ensures a == b
    decreases |a|
  {
    if a != [] {
      var tag, whole := a[0].tag, Joined(a, suffix);
      var x, y := Decimal(a[0].number) + Joined(a[1..], suffix), Decimal(b[0].number) + Joined(b[1..], suffix);
      Associative(tag, Decimal(a[0].number), Joined(a[1..], suffix));
      Associative(tag, Decimal(b[0].number), Joined(b[1..], suffix));
      assert x == whole[|tag|..] == y;
      JoinedEnds(a[1..], suffix);
      JoinedEnds(b[1..], suffix);
      NumberThenRest(a[0].number, Joined(a[1..], suffix), b[0].number, Joined(b[1..], suffix));
      JoinedOneToOne(a[1..], b[1..], suffix);
      assert a == [a[0]] + a[1..] && b == [b[0]] + b[1..];
    }
  }

  // ---------- the names ----------

  function IdentityParts(id: I.Identity): seq<Labelled> {
    [Labelled("-a", id.algorithm), Labelled("-av", id.arithmeticVersion), Labelled("-fv", id.formulaVersion),
     Labelled("-d", id.requestedDigits), Labelled("-g", id.guardDigits), Labelled("-w", id.workingDigits),
     Labelled("-n", id.termCount)]
  }

  function LocationParts(location: BlockLocation): seq<Labelled> {
    [Labelled("-r", location.start), Labelled("-", location.end), Labelled("-l", location.treeLevel)]
  }

  function BlockName(id: I.Identity, location: BlockLocation): string {
    "pqt-v1" + Joined(IdentityParts(id) + LocationParts(location), ".checkpoint")
  }

  function ManifestName(id: I.Identity): string {
    "manifest-v1" + Joined(IdentityParts(id), ".manifest")
  }

  /** `createTempPath` */
  function TempName(destination: string, process: nat, sequence: nat): string {
    destination + ".tmp." + Decimal(process) + "." + Decimal(sequence)
  }

  lemma AfterPrefix(prefix: string, x: string, y: string)
    requires prefix + x == prefix + y
    ensures x == y
  {
    assert x == (prefix + x)[|prefix|..] == (prefix + y)[|prefix|..] == y;
  }

  /** A name is the name of one block only. */
  lemma BlockNameOneToOne(id: I.Identity, location: BlockLocation, id': I.Identity, location': BlockLocation)
    requires BlockName(id, location) == BlockName(id', location')
    ensures id == id' && location == location'
  {
    var a, b := IdentityParts(id) + LocationParts(location), IdentityParts(id') + LocationParts(location');
    AfterPrefix("pqt-v1", Joined(a, ".checkpoint"), Joined(b, ".checkpoint"));
    JoinedOneToOne(a, b, ".checkpoint");
    PartsOneToOne(id, location, id', location');
  }

  lemma PartsOneToOne(id: I.Identity, location: BlockLocation, id': I.Identity, location': BlockLocation)
    requires IdentityParts(id) + LocationParts(location) == IdentityParts(id') + LocationParts(location')
    ensures id == id' && location == location'
  {
    var a, b := IdentityParts(id) + LocationParts(location), IdentityParts(id') + LocationParts(location');
    assert a[..7] == IdentityParts(id) && b[..7] == IdentityParts(id');
    assert a[7..] == LocationParts(location) && b[7..] == LocationParts(location');
    assert a[..7][0] == b[..7][0] && a[..7][1] == b[..7][1] && a[..7][2] == b[..7][2] && a[..7][3] == b[..7][3];
    assert a[..7][4] == b[..7][4] && a[..7][5] == b[..7][5] && a[..7][6] == b[..7][6];
    assert a[7..][0] == b[7..][0] && a[7..][1] == b[7..][1] && a[7..][2] == b[7..][2];
  }

  lemma ManifestNameOneToOne(id: I.Identity, id': I.Identity)
    requires ManifestName(id) == ManifestName(id')
    ensures id == id'
  {
    AfterPrefix("manifest-v1", Joined(IdentityParts(id), ".manifest"), Joined(IdentityParts(id'), ".manifest"));
    JoinedOneToOne(IdentityParts(id), IdentityParts(id'), ".manifest");
    assert IdentityParts(id)[0] == IdentityParts(id')[0] && IdentityParts(id)[1] == IdentityParts(id')[1];
    assert IdentityParts(id)[2] == IdentityParts(id')[2] && IdentityParts(id)[3] == IdentityParts(id')[3];
    assert IdentityParts(id)[4] == IdentityParts(id')[4] && IdentityParts(id)[5] == IdentityParts(id')[5];
    assert IdentityParts(id)[6] == IdentityParts(id')[6];
  }

  /** Each sequence number gives a temporary name of its own, whatever it is temporary for. */
  lemma TempNameOneToOne(destination: string, sequence: nat, destination': string, sequence': nat, process: nat)
    requires TempName(destination, process, sequence) == TempName(destination', process, sequence')
    ensures sequence == sequence'
  {
    LastNumber(destination + ".tmp." + Decimal(process), sequence, destination' + ".tmp." + Decimal(process), sequence');
  }

  lemma {:induction false} JoinedLast(parts: seq<Labelled>, suffix: string)
    requires suffix != []
    ensures var text := Joined(parts, suffix); text != [] && text[|text| - 1] == suffix[|suffix| - 1]
  {
    if parts != [] { JoinedLast(parts[1..], suffix); }
  }

  /** The three kinds of names do not meet. */
  lemma KindsOfNamesDiffer(id: I.Identity, location: BlockLocation, id': I.Identity, destination: string, process: nat,
                           sequence: nat)
    ensures BlockName(id, location) != ManifestName(id')
    ensures TempName(destination, process, sequence) != BlockName(id, location)
    ensures TempName(destination, process, sequence) != ManifestName(id')
  {
    var block, manifest, temp := BlockName(id, location), ManifestName(id'), TempName(destination, process, sequence);
    assert block[0] == 'p' && manifest[0] == 'm';
    JoinedLast(IdentityParts(id) + LocationParts(location), ".checkpoint");
    JoinedLast(IdentityParts(id'), ".manifest");
    assert block[|block| - 1] == 't' && manifest[|manifest| - 1] == 't';
    var digits := Decimal(sequence);
    assert temp[|temp| - 1] == digits[|digits| - 1] && digits[|digits| - 1] in digits;
  }
}
