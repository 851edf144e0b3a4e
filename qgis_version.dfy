/**
 * `checkQgisVersion` and its inner `to_int`: a dotted version string folded
 * into one integer and compared against the running QGIS version.
 */
module QgisVersion {
  import opened Wrappers
  import opened PyStr

  /** The ValueError `int()` raises on a component that is not a numeral. */
  datatype VersionError = InvalidLiteral(component: string)

  function ParseComponent(s: string): Result<nat, VersionError> {
    match ParseInt(s)
    case Some(n) => Ok(n)
    case None => Err(InvalidLiteral(s))
  }

  /**
   * `to_int`: split on '.', read major, minor and rev (missing ones are 0,
   * any after the third are never read), then fold them into one integer.
   */
  function ToInt(ver: string): (r: Result<nat, VersionError>)
    ensures r.Ok? ==> WellFormed(Split(ver, '.')) && r.value == EncodedParts(Split(ver, '.'))
    ensures r.Err? ==> !IsNumeral(r.error.component)
    ensures r.Err? ==> exists i :: 0 <= i < |Split(ver, '.')| && i < 3 && Split(ver, '.')[i] == r.error.component &&
                                  forall j :: 0 <= j < i ==> IsNumeral(Split(ver, '.')[j])
  {
    var c :- ReadComponents(Split(ver, '.'));
    Ok(Fold(c.0, c.1, c.2))
  }

  /** The first dot-separated piece is the major, the next two (when present) minor and rev, each read with `int()` in that order. */
  function ReadComponents(parts: seq<string>): (r: Result<(nat, nat, nat), VersionError>)
    requires |parts| >= 1
    ensures r.Ok? ==> forall i :: 0 <= i < |parts| && i < 3 ==> IsNumeral(parts[i])
    ensures r.Ok? ==> r.value.0 == DigitsValue(parts[0])
    ensures r.Ok? ==> r.value.1 == (if |parts| > 1 then DigitsValue(parts[1]) else 0)
    ensures r.Ok? ==> r.value.2 == (if |parts| > 2 then DigitsValue(parts[2]) else 0)
    ensures r.Err? ==> !IsNumeral(r.error.component)
    ensures r.Err? ==> exists i :: 0 <= i < |parts| && i < 3 && parts[i] == r.error.component &&
                                  forall j :: 0 <= j < i ==> IsNumeral(parts[j])
  {
    var major :- ParseComponent(parts[0]);
    var minor :- if |parts| > 1 then ParseComponent(parts[1]) else Ok(0);
    var rev :- if |parts| > 2 then ParseComponent(parts[2]) else Ok(0);
    Ok((major, minor, rev))
  }

  /**
   * Roll a minor of 99 or more into the next major (minor and rev become 0),
   * clamp rev to 99, write major in decimal followed by minor and rev each
   * padded to two digits, and read that numeral back: the result is the
   * arithmetic encoding.
   */
  function Fold(major: nat, minor: nat, rev: nat): (code: nat)
    ensures code == Encoded(major, minor, rev)
  {
    var (major', minor', rev') := if minor >= 99 then (major + 1, 0, 0) else (major, minor, rev);
    var rev'' := if rev' > 99 then 99 else rev';
    FormatValue(major', minor', rev'');
    DigitsValue(Decimal(major') + ZeroPad2(minor') + ZeroPad2(rev''))
  }

  /**
   * The encoding stated arithmetically: major*10000 + minor*100 + rev,
   * where a minor of 99 or more means the next major and rev is at most 99.
   */
  function Encoded(major: nat, minor: nat, rev: nat): nat {
    if minor >= 99 then (major + 1) * 10000
    else major * 10000 + minor * 100 + (if rev > 99 then 99 else rev)
  }

  /** A dotted version given by its pieces: the first three are numerals; later ones are anything without a '.'. */
  predicate WellFormed(parts: seq<string>) {
    && |parts| >= 1
    && (forall i :: 0 <= i < |parts| ==> '.' !in parts[i])
    && (forall i :: 0 <= i < |parts| && i < 3 ==> IsNumeral(parts[i]))
  }

  /** The value of piece `i`, 0 when the version has fewer pieces. */
  function Piece(parts: seq<string>, i: nat): nat
    requires WellFormed(parts)
  {
    if i < |parts| && i < 3 then DigitsValue(parts[i]) else 0
  }

  function EncodedParts(parts: seq<string>): nat
    requires WellFormed(parts)
  {
    Encoded(Piece(parts, 0), Piece(parts, 1), Piece(parts, 2))
  }

  /** The zero-padded format read back as an integer is the arithmetic fold. */
  lemma FormatValue(major: nat, minor: nat, rev: nat)
    requires minor < 100 && rev < 100
    ensures IsNumeral(Decimal(major) + ZeroPad2(minor) + ZeroPad2(rev))
    ensures DigitsValue(Decimal(major) + ZeroPad2(minor) + ZeroPad2(rev)) == major * 10000 + minor * 100 + rev
  {
    DigitsValueAppend(Decimal(major), ZeroPad2(minor));
    DigitsValueAppend(Decimal(major) + ZeroPad2(minor), ZeroPad2(rev));
    assert Pow10(2) == 100;
  }

  /** Reading the pieces of a well-formed version succeeds with their values. */
  lemma ReadWellFormed(parts: seq<string>)
    requires WellFormed(parts)
    ensures ReadComponents(parts) == Ok((Piece(parts, 0), Piece(parts, 1), Piece(parts, 2)))
  {
    if |parts| > 1 {
      assert IsNumeral(parts[1]);
    }
    if |parts| > 2 {
      assert IsNumeral(parts[2]);
    }
  }

  /**
   * `to_int` on a well-formed version is the arithmetic encoding of its first
   * three pieces; missing pieces count as 0 and later pieces are ignored.
   */
  lemma ToIntEncodes(parts: seq<string>)
    requires WellFormed(parts)
    ensures ToInt(Join(parts, '.')) == Ok(EncodedParts(parts))
  {
    JoinThenSplit(parts, '.');
    ReadWellFormed(parts);
  }

  /** `to_int` raises exactly when one of the first three pieces is not a numeral. */
  lemma ToIntRejects(ver: string)
    ensures ToInt(ver).Err? <==>
      exists i :: 0 <= i < |Split(ver, '.')| && i < 3 && !IsNumeral(Split(ver, '.')[i])
  {
    var parts := Split(ver, '.');
    if IsNumeral(parts[0]) && (|parts| > 1 ==> IsNumeral(parts[1])) && (|parts| > 2 ==> IsNumeral(parts[2])) {
      assert ReadComponents(parts).Ok?;
      forall i | 0 <= i < |parts| && i < 3 ensures IsNumeral(parts[i]) {
      }
    } else if !IsNumeral(parts[0]) {
      assert ParseComponent(parts[0]).Err?;
    } else if |parts| > 1 && !IsNumeral(parts[1]) {
      assert ParseComponent(parts[1]).Err?;
    } else {
      assert ParseComponent(parts[2]).Err?;
    }
  }

  /** "2.0.1" encodes to 20001. */
  lemma ExamplePlain()
    ensures ToInt("2.0.1") == Ok(20001)
  {
    var parts := ["2", "0", "1"];
    assert Join(parts, '.') == "2.0.1";
    assert Piece(parts, 0) == 2 && Piece(parts, 1) == 0 && Piece(parts, 2) == 1;
    ToIntEncodes(parts);
  }

  /** "3.99.0" rolls over to 40000. */
  lemma ExampleRollover()
    ensures ToInt("3.99.0") == Ok(40000)
  {
    var parts := ["3", "99", "0"];
    assert Join(parts, '.') == "3.99.0";
    assert "99"[..1] == "9" && "9"[..0] == [];
    assert Piece(parts, 0) == 3 && Piece(parts, 1) == 99;
    ToIntEncodes(parts);
  }

  /** "1.2.150" is clamped to 10299, the code of "1.2.99". */
  lemma ExampleClamp()
    ensures ToInt("1.2.150") == Ok(10299)
    ensures ToInt("1.2.150") == ToInt("1.2.99")
  {
    var parts := ["1", "2", "150"];
    assert Join(parts, '.') == "1.2.150";
    assert "150"[..2] == "15" && "15"[..1] == "1" && "1"[..0] == [];
    assert Piece(parts, 0) == 1 && Piece(parts, 1) == 2 && Piece(parts, 2) == 150;
    ToIntEncodes(parts);
    ExampleRev99();
  }

  lemma ExampleRev99()
    ensures ToInt("1.2.99") == Ok(10299)
  {
    var parts := ["1", "2", "99"];
    assert Join(parts, '.') == "1.2.99";
    assert "99"[..1] == "9" && "9"[..0] == [];
    assert Piece(parts, 0) == 1 && Piece(parts, 1) == 2 && Piece(parts, 2) == 99;
    ToIntEncodes(parts);
  }

  /** A minor of 99 or more yields the next major whatever the rev, even a rev that is absent. */
  lemma MinorRollsOver(parts: seq<string>)
    requires WellFormed(parts) && Piece(parts, 1) >= 99
    ensures ToInt(Join(parts, '.')) == Ok((Piece(parts, 0) + 1) * 10000)
  {
    ToIntEncodes(parts);
    RolloverValue(parts);
  }

  lemma RolloverValue(parts: seq<string>)
    requires WellFormed(parts) && Piece(parts, 1) >= 99
    ensures EncodedParts(parts) == (Piece(parts, 0) + 1) * 10000
  {
  }

  /** A rev above 99 encodes like rev 99, and any pieces after it are ignored. */
  lemma RevClamped(parts: seq<string>)
    requires WellFormed(parts) && Piece(parts, 2) > 99
    ensures ToInt(Join(parts, '.')) == ToInt(Join(parts[..2] + ["99"], '.'))
  {
    ToIntEncodes(parts);
    ClampedEncodes(parts[..2]);
    ClampValue(parts);
  }

  lemma ClampValue(parts: seq<string>)
    requires WellFormed(parts) && Piece(parts, 2) > 99
    ensures EncodedParts(parts) == Encoded(DigitsValue(parts[0]), DigitsValue(parts[1]), 99)
  {
  }

  lemma ClampedEncodes(prefix: seq<string>)
    requires |prefix| == 2 && IsNumeral(prefix[0]) && IsNumeral(prefix[1])
    requires '.' !in prefix[0] && '.' !in prefix[1]
    ensures ToInt(Join(prefix + ["99"], '.')) == Ok(Encoded(DigitsValue(prefix[0]), DigitsValue(prefix[1]), 99))
  {
    var clamped := prefix + ["99"];
    assert "99"[..1] == "9" && "9"[..0] == [];
    assert clamped[0] == prefix[0] && clamped[1] == prefix[1] && clamped[2] == "99" && |clamped| == 3;
    assert WellFormed(clamped);
    assert Piece(clamped, 2) == 99;
    ToIntEncodes(clamped);
  }

  /** Lexicographic order on `(major, minor, rev)`. */
  predicate LexLe(a: (nat, nat, nat), b: (nat, nat, nat)) {
    a.0 < b.0 || (a.0 == b.0 && (a.1 < b.1 || (a.1 == b.1 && a.2 <= b.2)))
  }

  /**
   * After rollover and clamping (minor at most 98, rev at most 99) the
   * integer code orders versions exactly as their components do.
   */
  lemma EncodingOrdersVersions(a: (nat, nat, nat), b: (nat, nat, nat))
    requires a.1 <= 98 && a.2 <= 99 && b.1 <= 98 && b.2 <= 99
    ensures Encoded(a.0, a.1, a.2) <= Encoded(b.0, b.1, b.2) <==> LexLe(a, b)
  {
  }

  /** Python truthiness of an optional string: None and "" are both falsy. */
  predicate Truthy(s: Option<string>) {
    s.Some? && s.value != []
  }

  /**
   * `checkQgisVersion`: the running version (the part of `qgisVersion`
   * before the first '-') lies in the range; a falsy bound is replaced by
   * the running version. The running version is converted first, then the
   * minimum, then the maximum, so the first malformed one raises. A
   * decision is reached iff every version string the check reads converts.
   */
  function CheckQgisVersion(minver: Option<string>, maxver: Option<string>, qgisVersion: string): (r: Result<bool, VersionError>)
    ensures r.Ok? <==>
      && ToInt(Split(qgisVersion, '-')[0]).Ok?
      && (!Truthy(minver) || ToInt(minver.value).Ok?)
      && (!Truthy(maxver) || ToInt(maxver.value).Ok?)
    ensures ToInt(Split(qgisVersion, '-')[0]).Err? ==> r == Err(ToInt(Split(qgisVersion, '-')[0]).error)
    ensures ToInt(Split(qgisVersion, '-')[0]).Ok? && Truthy(minver) && ToInt(minver.value).Err? ==>
      r == Err(ToInt(minver.value).error)
    ensures (ToInt(Split(qgisVersion, '-')[0]).Ok? && (!Truthy(minver) || ToInt(minver.value).Ok?) &&
             Truthy(maxver) && ToInt(maxver.value).Err?) ==> r == Err(ToInt(maxver.value).error)
  {
    var version :- ToInt(Split(qgisVersion, '-')[0]);
    var lo :- if Truthy(minver) then ToInt(minver.value) else Ok(version);
    var hi :- if Truthy(maxver) then ToInt(maxver.value) else Ok(version);
    Ok(lo <= version <= hi)
  }

  /** A bound as metadata gives it: absent or empty, or a string whose dot-separated pieces are well formed. */
  predicate BoundWellFormed(bound: Option<string>) {
    Truthy(bound) ==> WellFormed(Split(bound.value, '.'))
  }

  /** The encoding of a truthy, well-formed bound. */
  function BoundCode(bound: Option<string>): nat
    requires Truthy(bound) && BoundWellFormed(bound)
  {
    EncodedParts(Split(bound.value, '.'))
  }

  /**
   * With well-formed versions, the check holds iff the encoded minimum is
   * at most the encoded running version and that is at most the encoded
   * maximum; an absent or empty bound imposes nothing, whether or not the
   * other bound is given. The running version may carry a '-' suffix (a
   * release name), which is ignored.
   */
  lemma CheckIsRange(minver: Option<string>, maxver: Option<string>, current: seq<string>, suffix: string)
    requires BoundWellFormed(minver) && BoundWellFormed(maxver) && WellFormed(current)
    requires forall i :: 0 <= i < |current| ==> '-' !in current[i]
    requires suffix == [] || suffix[0] == '-'
    ensures CheckQgisVersion(minver, maxver, Join(current, '.') + suffix) ==
      Ok((!Truthy(minver) || BoundCode(minver) <= EncodedParts(current)) &&
         (!Truthy(maxver) || EncodedParts(current) <= BoundCode(maxver)))
  {
    ReleaseVersion(current, suffix);
    ToIntEncodes(current);
    BoundEncodes(minver);
    BoundEncodes(maxver);
  }

  /** `qgisMinimumVersion=3.10` with a blank `qgisMaximumVersion=`: the blank side is open. */
  lemma ExampleBlankMaximum()
    ensures CheckQgisVersion(Some("3.10"), Some(""), "3.22.4-Bialowieza") == Ok(true)
  {
    var current := ["3", "22", "4"];
    assert Join(current, '.') + "-Bialowieza" == "3.22.4-Bialowieza";
    ExampleCurrentCode(current);
    ExampleMinimumCode();
    CheckIsRange(Some("3.10"), Some(""), current, "-Bialowieza");
  }

  /** "3.22.4" is well formed and encodes to 32204. */
  lemma ExampleCurrentCode(current: seq<string>)
    requires current == ["3", "22", "4"]
    ensures WellFormed(current) && EncodedParts(current) == 32204
  {
    assert "22"[..1] == "2" && "2"[..0] == [];
    assert Piece(current, 0) == 3 && Piece(current, 1) == 22 && Piece(current, 2) == 4;
  }

  /** The bound "3.10" is well formed and encodes to 31000. */
  lemma ExampleMinimumCode()
    ensures BoundWellFormed(Some("3.10")) && BoundCode(Some("3.10")) == 31000
  {
    var lo := ["3", "10"];
    assert Join(lo, '.') == "3.10";
    JoinThenSplit(lo, '.');
    assert "10"[..1] == "1" && "1"[..0] == [];
    assert Piece(lo, 0) == 3 && Piece(lo, 1) == 10 && Piece(lo, 2) == 0;
  }

  /** The part before the first '-' of `"<major>.<minor>.<rev>-<name>"` is the dotted version. */
  lemma ReleaseVersion(current: seq<string>, suffix: string)
    requires forall i :: 0 <= i < |current| ==> '-' !in current[i]
    requires suffix == [] || suffix[0] == '-'
    ensures Split(Join(current, '.') + suffix, '-')[0] == Join(current, '.')
  {
    JoinHasNo(current, '.', '-');
    SplitHead(Join(current, '.'), suffix, '-');
  }

  /** A truthy well-formed bound converts to its encoding. */
  lemma BoundEncodes(bound: Option<string>)
    requires BoundWellFormed(bound)
    ensures Truthy(bound) ==> ToInt(bound.value) == Ok(BoundCode(bound))
  {
    if Truthy(bound) {
      ToIntEncodes(Split(bound.value, '.'));
      SplitThenJoin(bound.value, '.');
    }
  }

  /** With both bounds absent or empty, any readable running version is accepted. */
  lemma UnboundedAccepts(minver: Option<string>, maxver: Option<string>, qgisVersion: string)
    requires !Truthy(minver) && !Truthy(maxver)
    requires ToInt(Split(qgisVersion, '-')[0]).Ok?
    ensures CheckQgisVersion(minver, maxver, qgisVersion) == Ok(true)
  {
  }

  /** A malformed bound, or a malformed running version, makes the check raise instead of deciding. */
  lemma MalformedRaises(minver: Option<string>, maxver: Option<string>, qgisVersion: string)
    requires
      || ToInt(Split(qgisVersion, '-')[0]).Err?
      || (Truthy(minver) && ToInt(minver.value).Err?)
      || (Truthy(maxver) && ToInt(maxver.value).Err?)
    ensures CheckQgisVersion(minver, maxver, qgisVersion).Err?
  {
  }

  lemma {:induction false} JoinHasNo(parts: seq<string>, sep: char, c: char)
    requires c != sep
    requires forall i :: 0 <= i < |parts| ==> c !in parts[i]
    ensures c !in Join(parts, sep)
    decreases |parts|
  {
    if |parts| > 1 {
      JoinHasNo(parts[1..], sep, c);
    }
  }
}
