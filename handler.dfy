/**
 * The request handler of the image server (main.js): it reads a width and a
 * height from the URL path, answers 400 with an empty text/plain body when
 * either is NaN, and otherwise answers 200 image/png with a fixed source image
 * resized to the larger dimension's square and cropped to width x height at the
 * origin. The HTTP server and the image library are not modelled: a request is
 * its path, the image library is the plan it is handed plus the outcome it
 * reports, and the response is the sequence of actions taken on it.
 */
module Handler {
  import opened Wrappers
  import opened JsStrings
  import opened JsParseInt

  /** The one image every response is rendered from. */
  const SourceImage: string := "nodejs.png"

  /** One step of the image pipeline handed to the image library. */
  datatype Op =
    | Resize(width: int, height: int)
    | Crop(width: int, height: int, x: int, y: int)

  /** The call into the image library: a source file and the steps to apply, in order. */
  datatype TransformRequest = TransformRequest(source: string, ops: seq<Op>)

  /** The decision on a request: status, content type, and the transform to stream, if any. */
  datatype Response = Response(status: int, contentType: string, transform: Option<TransformRequest>)

  /**
   * `path.substring(1).split("/")`: the segments hold no "/", and joined again
   * by "/" they give back the path without its first character.
   */
  function UrlParts(path: string): (parts: seq<string>)
    ensures |parts| >= 1
    ensures forall i :: 0 <= i < |parts| ==> '/' !in parts[i]
    ensures Join(parts, '/') == Substring1(path)
  {
    SplitPartitions(Substring1(path), '/');
    Split(Substring1(path), '/')
  }

  /**
   * `url_parts[i]` as `parseInt` sees it: an element that is present is read
   * as it is, and an absent one is `undefined`, which reads as NaN.
   */
  function Part(parts: seq<string>, i: nat): (s: string)
    ensures i < |parts| ==> s == parts[i]
    ensures i >= |parts| ==> ParseInt(s).None?
  {
    ParseIntUndefined();
    if i < |parts| then parts[i] else "undefined"
  }

  /**
   * `parseInt(url_parts[0])`; `None` is NaN. There is always a first segment,
   * so the width is read from the path itself and never from `undefined`.
   */
  function Width(path: string): (r: Option<int>)
    ensures r == ParseInt(UrlParts(path)[0])
  {
    ParseInt(Part(UrlParts(path), 0))
  }

  /**
   * `parseInt(url_parts[1])`; `None` is NaN. A path with a single segment has
   * no second one, and its height is `parseInt(undefined)`, NaN.
   */
  function Height(path: string): (r: Option<int>)
    ensures |UrlParts(path)| >= 2 ==> r == ParseInt(UrlParts(path)[1])
    ensures |UrlParts(path)| < 2 ==> r.None?
  {
    ParseInt(Part(UrlParts(path), 1))
  }

  /** `Math.max` of two numbers that are not NaN. */
  function Max(a: int, b: int): (m: int)
    ensures m >= a && m >= b
    ensures m == a || m == b
  {
    if a >= b then a else b
  }

  /**
   * The image pipeline: a square resize whose side is the larger dimension,
   * then a crop of exactly width x height anchored at (0, 0).
   */
  function Plan(width: int, height: int): (ops: seq<Op>)
    ensures |ops| == 2 && ops[0].Resize? && ops[1] == Crop(width, height, 0, 0)
    ensures ops[0].width == ops[0].height
    ensures ops[0].width >= width && ops[0].width >= height
    ensures ops[0].width == width || ops[0].width == height
  {
    var max := Max(width, height);
    [Resize(max, max), Crop(width, height, 0, 0)]
  }

  /**
   * The decision the handler takes on a path: 400 text/plain without a transform
   * exactly when the width or the height is NaN, 200 image/png with the plan for
   * the two dimensions, unchanged, otherwise.
   */
  function Decide(path: string): (r: Response)
    ensures r.status == 400 <==> Width(path).None? || Height(path).None?
    ensures r.status == 400 ==> r.contentType == "text/plain" && r.transform.None?
    ensures r.status != 400 ==>
      && r.status == 200 && r.contentType == "image/png"
      && r.transform == Some(TransformRequest(SourceImage, Plan(Width(path).value, Height(path).value)))
  {
    var width := Width(path);
    var height := Height(path);
    if width.Some? && height.Some? then
      Response(200, "image/png", Some(TransformRequest(SourceImage, Plan(width.value, height.value))))
    else
      Response(400, "text/plain", None)
  }

  /**
   * For non-negative dimensions the crop rectangle at (0, 0) lies inside the
   * resize box the plan requests, and no smaller square box would hold it.
   */
  lemma CropFitsResize(width: int, height: int, side: int)
    requires width >= 0 && height >= 0
    requires side >= width && side >= height
    ensures var ops := Plan(width, height);
      && 0 <= ops[1].x && ops[1].x + ops[1].width <= ops[0].width
      && 0 <= ops[1].y && ops[1].y + ops[1].height <= ops[0].height
      && ops[0].width <= side
  {
  }

  /** A decimal integer never holds the separator "/". */
  lemma NoSlashInDecimal(n: int)
    ensures '/' !in DecimalString(n)
  {
    var d := NatDigits(if n < 0 then -n else n);
    assert forall i :: 0 <= i < |d| ==> d[i] != '/' by {
      forall i | 0 <= i < |d| ensures d[i] != '/' {
        assert IsRadixDigit(d[i], 10);
      }
    }
    if n < 0 {
      assert DecimalString(n) == "-" + d;
      assert forall i :: 0 <= i < |"-" + d| ==> ("-" + d)[i] != '/' by {
        forall i | 0 <= i < |"-" + d| ensures ("-" + d)[i] != '/' {
          if i > 0 {
            assert ("-" + d)[i] == d[i - 1];
          }
        }
      }
    }
  }

  /**
   * The dimensions are the path's first two segments: "/<width>/<height>" with
   * any integers, negative and zero included and with no upper bound, is
   * answered 200 with the plan for exactly those integers. Whatever follows the
   * height is ignored as long as it cannot continue its digits (further
   * segments, a query string, trailing letters).
   */
  lemma DecideDimensions(width: int, height: int, suffix: string)
    requires EndsLiteral(height, suffix)
    ensures Decide("/" + DecimalString(width) + "/" + DecimalString(height) + suffix)
      == Response(200, "image/png", Some(TransformRequest(SourceImage,
           [Resize(Max(width, height), Max(width, height)), Crop(width, height, 0, 0)])))
  {
    var w, h := DecimalString(width), DecimalString(height);
    var path := "/" + w + "/" + h + suffix;
    var rest := Split(suffix, '/')[0];
    NoSlashInDecimal(width);
    NoSlashInDecimal(height);
    SegmentsOf('/', w, h, suffix);
    assert Width(path) == Some(width) by {
      ParseIntDecimalString(width, []);
      assert w + [] == w;
    }
    assert Height(path) == Some(height) by {
      FirstPiece(suffix, '/');
      assert EndsLiteral(height, rest) by {
        if rest != [] {
          assert rest[0] == suffix[0];
        }
      }
      ParseIntDecimalString(height, rest);
    }
  }

  /**
   * The first two segments of "<c><a>/<b><suffix>" when neither a nor b holds
   * a "/": the first character is dropped whatever it is.
   */
  lemma SegmentsOf(c: char, a: string, b: string, suffix: string)
    requires '/' !in a && '/' !in b
    ensures var parts := UrlParts([c] + a + "/" + b + suffix);
      |parts| >= 2 && parts[0] == a && parts[1] == b + Split(suffix, '/')[0]
  {
    var path := [c] + a + "/" + b + suffix;
    var tail := a + ['/'] + (b + suffix);
    assert Substring1(path) == tail by {
      assert path == [c] + tail;
    }
    SplitAfterPiece(a, b + suffix, '/');
    SplitPrefix(b, suffix, '/');
  }

  /**
   * Only the first two segments count, and the first character of the path is
   * dropped whatever it is: segments after the height never change the decision.
   */
  lemma ExtraSegmentsIgnored(c: char, d: char, a: string, b: string, rest: string)
    requires '/' !in a && '/' !in b
    ensures Decide([c] + a + "/" + b + "/" + rest) == Decide([d] + a + "/" + b)
  {
    var long := [c] + a + "/" + b + "/" + rest;
    var short := [d] + a + "/" + b;
    assert long == [c] + a + "/" + b + ("/" + rest);
    SegmentsOf(c, a, b, "/" + rest);
    assert Split("/" + rest, '/')[0] == [] by {
      assert ("/" + rest)[0] == '/' && ("/" + rest)[1..] == rest;
    }
    assert short == [d] + a + "/" + b + "";
    SegmentsOf(d, a, b, "");
    assert b + [] == b;
    assert Part(UrlParts(long), 0) == Part(UrlParts(short), 0);
    assert Part(UrlParts(long), 1) == Part(UrlParts(short), 1);
  }

  /**
   * A path without a second segment ("/10", "/", "") has no height: its height
   * is `parseInt(undefined)`, NaN, so it is answered 400.
   */
  lemma MissingHeightRejected(path: string)
    requires '/' !in Substring1(path)
    ensures Height(path).None?
    ensures Decide(path) == Response(400, "text/plain", None)
  {
    SplitNoSeparator(Substring1(path), '/');
    ParseIntUndefined();
  }

  // The response over time. `writeHead` is called before the image library is
  // called, so the status cannot depend on how the transform turns out.

  /** One byte of the PNG the image library writes. */
  newtype Byte = b: int | 0 <= b < 256

  /** What the image library reports to its callback: an error, or the output stream. */
  datatype TransformOutcome =
    | TransformError(message: string)
    | TransformOutput(png: seq<Byte>)

  /** What the handler does with the response and the operator log, in order. */
  datatype Action =
    | WriteHead(status: int, contentType: string)
    | StartTransform(request: TransformRequest)
    | Log(message: string)
    | Pipe(png: seq<Byte>)
    | End

  /**
   * The actions taken for a request, given what the image library will report.
   * A rejection writes its head and ends at once. An accepted request writes
   * the 200 head, starts the transform, and then either logs the error (the
   * response is never ended) or pipes the image, which ends the response.
   */
  function Serve(path: string, outcome: TransformOutcome): (actions: seq<Action>)
    ensures |actions| >= 2
    ensures actions[0] == WriteHead(Decide(path).status, Decide(path).contentType)
    ensures forall i :: 1 <= i < |actions| ==> !actions[i].WriteHead?
  {
    var r := Decide(path);
    match r.transform
    case None => [WriteHead(r.status, r.contentType), End]
    case Some(request) =>
      [WriteHead(r.status, r.contentType), StartTransform(request)] +
      match outcome
      case TransformError(message) => [Log(message)]
      case TransformOutput(png) => [Pipe(png), End]
  }

  /** The bytes the client receives: everything piped into the response, in order. */
  function Body(actions: seq<Action>): (body: seq<Byte>)
    ensures (forall i :: 0 <= i < |actions| ==> !actions[i].Pipe?) ==> body == []
  {
    if actions == [] then []
    else (if actions[0].Pipe? then actions[0].png else []) + Body(actions[1..])
  }

  /** The body of consecutive actions is the first part's body followed by the second's. */
  lemma {:induction false} BodyConcat(first: seq<Action>, second: seq<Action>)
    ensures Body(first + second) == Body(first) + Body(second)
    decreases |first|
  {
    if first != [] {
      assert (first + second)[0] == first[0];
      assert (first + second)[1..] == first[1..] + second;
      BodyConcat(first[1..], second);
    } else {
      assert first + second == second;
    }
  }

  /**
   * The head and the call into the image library come before the outcome is
   * known: for any two outcomes they are the same.
   */
  lemma HeadPrecedesOutcome(path: string, one: TransformOutcome, other: TransformOutcome)
    ensures Serve(path, one)[0] == Serve(path, other)[0]
    ensures Decide(path).status == 200 ==>
      Serve(path, one)[..2] == Serve(path, other)[..2] &&
      Serve(path, one)[1] == StartTransform(Decide(path).transform.value)
  {
  }

  /** A rejected request ends at once with an empty body and never calls the image library. */
  lemma RejectionIsEmpty(path: string, outcome: TransformOutcome)
    requires Width(path).None? || Height(path).None?
    ensures Serve(path, outcome) == [WriteHead(400, "text/plain"), End]
    ensures Body(Serve(path, outcome)) == [] && End in Serve(path, outcome)
    ensures forall i :: 0 <= i < |Serve(path, outcome)| ==> !Serve(path, outcome)[i].StartTransform?
  {
    var actions := Serve(path, outcome);
    assert Body(actions[1..]) == [] by {
      assert actions[1..][1..] == [];
    }
  }

  /**
   * A transform error is only logged: the handler's head stays the 200 one,
   * nothing is piped, and the response is never ended (so Node never sends
   * even that head).
   */
  lemma TransformErrorKeepsStatus(path: string, message: string)
    requires Width(path).Some? && Height(path).Some?
    ensures var actions := Serve(path, TransformError(message));
      && actions[0] == WriteHead(200, "image/png")
      && Log(message) in actions
      && Body(actions) == []
      && End !in actions
  {
    var actions := Serve(path, TransformError(message));
    assert actions[1..][1..][1..] == [];
    assert Body(actions[1..][1..]) == [];
  }

  /** A transform that succeeds is the body of the 200 response, which then ends. */
  lemma TransformOutputIsBody(path: string, png: seq<Byte>)
    requires Width(path).Some? && Height(path).Some?
    ensures var actions := Serve(path, TransformOutput(png));
      && actions == [WriteHead(200, "image/png"), StartTransform(Decide(path).transform.value), Pipe(png), End]
      && Body(actions) == png
  {
    var actions := Serve(path, TransformOutput(png));
    assert actions[1..][1..][1..][1..] == [];
    assert Body(actions[1..][1..][1..]) == [];
    assert Body(actions[1..][1..]) == png;
  }

  // Requests worked through by the lemmas above.

  /** The larger dimension is the side of the square, whichever of the two it is. */
  lemma WideExample()
    ensures Decide("/100/50").transform == Some(TransformRequest(SourceImage, [Resize(100, 100), Crop(100, 50, 0, 0)]))
  {
    assert "/100/50" == "/" + DecimalString(100) + "/" + DecimalString(50) + "" by {
      DecimalLiterals();
    }
    DecideDimensions(100, 50, "");
  }

  lemma TallExample()
    ensures Decide("/50/100").transform == Some(TransformRequest(SourceImage, [Resize(100, 100), Crop(50, 100, 0, 0)]))
  {
    assert "/50/100" == "/" + DecimalString(50) + "/" + DecimalString(100) + "" by {
      DecimalLiterals();
    }
    DecideDimensions(50, 100, "");
  }

  /** Negative and zero dimensions are passed to the image library as they are. */
  lemma PassThroughExample()
    ensures Decide("/-5/0") == Response(200, "image/png",
      Some(TransformRequest(SourceImage, [Resize(0, 0), Crop(-5, 0, 0, 0)])))
  {
    assert "/-5/0" == "/" + DecimalString(-5) + "/" + DecimalString(0) + "" by {
      DecimalLiterals();
    }
    DecideDimensions(-5, 0, "");
  }

  lemma DecimalLiterals()
    ensures DecimalString(100) == "100" && DecimalString(50) == "50"
    ensures DecimalString(-5) == "-5" && DecimalString(0) == "0"
  {
    assert NatDigits(10) == "10";
  }

  /** A first segment without leading digits is NaN. */
  lemma NoDigitsExample()
    ensures Decide("/abc/10").status == 400
  {
    SegmentsOf('/', "abc", "10", "");
    assert "/abc/10" == ['/'] + "abc" + "/" + "10" + "";
    TrimStartStops("abc");
    assert UnsignedPart("abc") == "abc";
  }

  /** A missing second segment is NaN. */
  lemma MissingHeightExample()
    ensures Decide("/10").status == 400
  {
    MissingHeightRejected("/10");
  }

  /** A query string before the second "/" belongs to the width segment: no height, 400. */
  lemma QueryBeforeHeightExample()
    ensures Decide("/10?h=5").status == 400
  {
    MissingHeightRejected("/10?h=5");
  }

  /** A "/" inside the query string starts a new segment: the height is read after it. */
  lemma SlashInQueryExample()
    ensures Width("/10?h=/20") == Some(10) && Height("/10?h=/20") == Some(20)
  {
    QuerySegments();
    QueryDigitsExample();
  }

  lemma QuerySegments()
    ensures |UrlParts("/10?h=/20")| >= 2
    ensures UrlParts("/10?h=/20")[0] == "10?h=" && UrlParts("/10?h=/20")[1] == "20"
  {
    assert "/10?h=/20" == ['/'] + "10?h=" + "/" + "20" + "";
    SegmentsOf('/', "10?h=", "20", "");
    assert "20" + [] == "20";
  }
}
