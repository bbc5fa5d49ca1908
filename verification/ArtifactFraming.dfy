/** The byte stream that `clientArtifactDigest` feeds to the hash, and a decoder that gives the artifacts back. */
module ArtifactFraming {
  import opened Options

  newtype byte = b: int | 0 <= b < 256

  type Bytes = seq<byte>

  /** One artifact: its path in UTF-8, and its content. */
  datatype Artifact = Artifact(path: Bytes, content: Bytes)

  const COLON: byte := 58
  const ZERO: byte := 48

  /** A length in decimal digits. */
  function Decimal(n: nat): Bytes {
    if n < 10 then [ZERO + n as byte] else Decimal(n / 10) + [ZERO + (n % 10) as byte]
  }

  /** One length-prefixed field. */
  function Frame(field: Bytes): Bytes {
    Decimal(|field|) + [COLON] + field
  }

  /** Everything hashed for a list of artifacts. */
  function Stream(artifacts: seq<Artifact>): Bytes {
    if artifacts == [] then []
    else Frame(artifacts[0].path) + Frame(artifacts[0].content) + Stream(artifacts[1..])
  }

  /** The hashing loop: four updates for each artifact, in order; a build without artifacts is an error. */
  method FeedDigest(artifacts: seq<Artifact>) returns (result: Option<Bytes>)
    ensures result == if artifacts == [] then None else Some(Stream(artifacts))
  {
    if artifacts == [] {
      return None;
    }
    var fed: Bytes := [];
    assert artifacts[0..] == artifacts && fed + Stream(artifacts) == Stream(artifacts);
    for i := 0 to |artifacts|
      invariant fed + Stream(artifacts[i..]) == Stream(artifacts)
    {
      hide Decimal;
      var artifact := artifacts[i];
      ghost var before := fed;
      fed := fed + (Decimal(|artifact.path|) + [COLON]);
      fed := fed + artifact.path;
      fed := fed + (Decimal(|artifact.content|) + [COLON]);
      fed := fed + artifact.content;
      FedOne(artifacts, i, before);
      assert fed == before + (Frame(artifact.path) + Frame(artifact.content));
    }
    assert fed + [] == fed;
    result := Some(fed);
  }

  lemma FedOne(artifacts: seq<Artifact>, i: nat, before: Bytes)
    requires i < |artifacts|
    ensures before + Stream(artifacts[i..])
         == before + (Frame(artifacts[i].path) + Frame(artifacts[i].content)) + Stream(artifacts[i + 1..])
  {
    assert artifacts[i..][1..] == artifacts[i + 1..];
  }

  // ----- the decoder -----

  /** The digits up to a colon as a number continuing `n`, and what follows the colon. */
  function ReadLength(s: Bytes, n: nat): Option<(nat, Bytes)> {
    if s == [] then None
    else if s[0] == COLON then Some((n, s[1..]))
    else if ZERO <= s[0] < ZERO + 10 then ReadLength(s[1..], 10 * n + (s[0] - ZERO) as nat)
    else None
  }

  function ReadFrame(s: Bytes): Option<(Bytes, Bytes)> {
    match ReadLength(s, 0)
    case Some((n, rest)) => if n <= |rest| then Some((rest[..n], rest[n..])) else None
    case None => None
  }

  lemma {:induction false} ReadLengthShortens(s: Bytes, n: nat)
    ensures ReadLength(s, n).Some? ==> |ReadLength(s, n).value.1| < |s|
  {
    if s != [] && s[0] != COLON && ZERO <= s[0] < ZERO + 10 {
      ReadLengthShortens(s[1..], 10 * n + (s[0] - ZERO) as nat);
    }
  }

  lemma ReadFrameShortens(s: Bytes)
    ensures ReadFrame(s).Some? ==> |ReadFrame(s).value.1| < |s|
  {
    ReadLengthShortens(s, 0);
  }

  function Decode(s: Bytes): Option<seq<Artifact>>
    decreases |s|
  {
    if s == [] then Some([])
    else
      match ReadFrame(s)
      case None => None
      case Some((path, afterPath)) =>
        match ReadFrame(afterPath)
        case None => None
        case Some((content, rest)) =>
          ReadFrameShortens(s);
          ReadFrameShortens(afterPath);
          match Decode(rest)
          case None => None
          case Some(others) => Some([Artifact(path, content)] + others)
  }

  lemma {:induction false} LengthReads(n: nat, rest: Bytes)
    ensures ReadLength(Decimal(n) + rest, 0) == ReadLength(rest, n)
  {
    var digit := ZERO + (n % 10) as byte;
    assert ([digit] + rest)[1..] == rest;
    if n < 10 {
      assert Decimal(n) == [digit];
    } else {
      assert Decimal(n) + rest == Decimal(n / 10) + ([digit] + rest);
      LengthReads(n / 10, [digit] + rest);
      assert 10 * (n / 10) + n % 10 == n;
    }
  }

  lemma FrameReads(field: Bytes, rest: Bytes)
    ensures ReadFrame(Frame(field) + rest) == Some((field, rest))
  {
    var tail := [COLON] + (field + rest);
    assert Frame(field) + rest == Decimal(|field|) + tail;
    LengthReads(|field|, tail);
    assert tail[1..] == field + rest && (field + rest)[..|field|] == field && (field + rest)[|field|..] == rest;
  }

  /** Nothing is lost in the stream: the decoder gives back exactly the paths and contents. */
  lemma {:induction false} StreamDecodes(artifacts: seq<Artifact>)
    ensures Decode(Stream(artifacts)) == Some(artifacts)
  {
    if artifacts != [] {
      var first, others := artifacts[0], artifacts[1..];
      var afterPath := Frame(first.content) + Stream(others);
      assert Stream(artifacts) == Frame(first.path) + afterPath;
      FrameReads(first.path, afterPath);
      FrameReads(first.content, Stream(others));
      StreamDecodes(others);
      assert |Stream(artifacts)| > 0;
      assert artifacts == [first] + others;
    }
  }

  /** Different artifact lists never feed the same bytes to the hash. */
  lemma StreamInjective(a: seq<Artifact>, b: seq<Artifact>)
    requires Stream(a) == Stream(b)
    ensures a == b
  {
    StreamDecodes(a);
    StreamDecodes(b);
  }

  // ----- the bytes themselves -----

  /** The number that ASCII digits spell. */
  ghost function Spelled(digits: Bytes): int {
    if digits == [] then 0
    else 10 * Spelled(digits[..|digits| - 1]) + (digits[|digits| - 1] as int - 48)
  }

  /** A length is spelled in ASCII digits, without a leading zero. */
  lemma {:induction false} DecimalIs(n: nat)
    ensures Spelled(Decimal(n)) == n && Decimal(n) != []
    ensures forall d :: d in Decimal(n) ==> 48 <= d <= 57
    ensures Decimal(n)[0] == 48 ==> n == 0
  {
    if n >= 10 {
      DecimalIs(n / 10);
      var digits := Decimal(n);
      assert digits[..|digits| - 1] == Decimal(n / 10);
    } else {
      assert Decimal(n)[..0] == [];
    }
  }

  /** One artifact is fed as its path and its content, each behind its length and a colon. */
  lemma OneArtifact(artifact: Artifact)
    ensures Stream([artifact]) ==
      Decimal(|artifact.path|) + [58] + artifact.path + (Decimal(|artifact.content|) + [58] + artifact.content)
  {
    hide Decimal;
    assert Stream([artifact]) == Frame(artifact.path) + Frame(artifact.content) + Stream([]);
  }
}
