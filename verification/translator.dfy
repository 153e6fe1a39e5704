/**
 The translator from the format mini-language to Go's native layout.

 It is a single left-to-right pass over the characters of the format with one
 boolean of state, "escaped", which starts out false. `Emit` and `NextEscaped`
 are one step of that pass; `TranslateFrom` and `EscapedAfter` are the whole
 pass from a given state, and `ConvertToNative` starts it from the initial
 state. `ConvertToNativeLoop` is the same pass written as the loop it models.
 */
module Translator {
  import opened Tokens

  datatype Option<T> = None | Some(value: T)

  /**
   What one character contributes to the output, given the current state: a
   marker contributes nothing, a token read outside an escape contributes its
   fragment, and every other character is copied as itself.
   */
  function Emit(c: char, escaped: bool): (r: string)
    ensures |r| == 0 <==> IsMarker(c)
    ensures r == [c] <==> !IsMarker(c) && (escaped || c !in DigitMap)
    ensures |r| <= LongestFragment
  {
    if IsMarker(c) then []
    else if c in DigitMap && !escaped then FragmentShape(c); DigitMap[c]
    else [c]
  }

  /** No character contributes an escape marker to the output. */
  lemma EmitUnmarked(c: char, escaped: bool)
    ensures forall k :: 0 <= k < |Emit(c, escaped)| ==> !IsMarker(Emit(c, escaped)[k])
  {
    if c in DigitMap && !IsMarker(c) {
      FragmentShape(c);
    }
  }

  /** The state after reading one character: a marker decides it, anything else leaves it. */
  function NextEscaped(c: char, escaped: bool): (r: bool)
    ensures IsMarker(c) ==> r == (c == EscapeOpen)
    ensures !IsMarker(c) ==> r == escaped
  {
    if c == EscapeOpen then true
    else if c == EscapeClose then false
    else escaped
  }

  /** The output of the pass over `format`, started in state `escaped`. */
  function TranslateFrom(format: string, escaped: bool): (r: string)
    ensures |r| <= LongestFragment * |format|
  {
    if |format| == 0 then []
    else Emit(format[0], escaped) + TranslateFrom(format[1..], NextEscaped(format[0], escaped))
  }

  /** The state left at the end of the pass over `format`, started in state `escaped`. */
  function EscapedAfter(format: string, escaped: bool): (r: bool)
    ensures |format| > 0 && IsMarker(format[|format| - 1]) ==> r == (format[|format| - 1] == EscapeOpen)
  {
    if |format| == 0 then escaped
    else EscapedAfter(format[1..], NextEscaped(format[0], escaped))
  }

  /** The translation of a whole format string: the pass from the unescaped state. */
  function ConvertToNative(format: string): (r: string)
    ensures EscapeOpen !in r && EscapeClose !in r
    ensures |r| <= LongestFragment * |format|
  {
    NoMarkersInOutput(format, false);
    TranslateFrom(format, false)
  }

  /**
   The escape markers are never copied, and no fragment contains one, so
   whatever the input and the state, the output holds no marker.
   */
  lemma {:induction false} NoMarkersInOutput(format: string, escaped: bool)
    ensures EscapeOpen !in TranslateFrom(format, escaped)
    ensures EscapeClose !in TranslateFrom(format, escaped)
  {
    if |format| > 0 {
      var c := format[0];
      var rest := TranslateFrom(format[1..], NextEscaped(c, escaped));
      NoMarkersInOutput(format[1..], NextEscaped(c, escaped));
      EmitUnmarked(c, escaped);
      assert TranslateFrom(format, escaped) == Emit(c, escaped) + rest;
    }
  }

  /** `s` with its escape markers removed and the other characters kept in order. */
  function DropMarkers(s: string): string {
    if |s| == 0 then []
    else (if IsMarker(s[0]) then [] else [s[0]]) + DropMarkers(s[1..])
  }

  /** The last escape marker in `s`, if there is one. */
  function LastMarker(s: string): Option<char> {
    if |s| == 0 then None
    else if IsMarker(s[|s| - 1]) then Some(s[|s| - 1])
    else LastMarker(s[..|s| - 1])
  }

  /**
   Compositionality: the pass has one boolean of state and no lookahead, so
   translating `a + b` is translating `a`, then translating `b` from the state
   `a` left behind.
   */
  lemma {:induction false} Compose(a: string, b: string, escaped: bool)
    ensures TranslateFrom(a + b, escaped)
         == TranslateFrom(a, escaped) + TranslateFrom(b, EscapedAfter(a, escaped))
    ensures EscapedAfter(a + b, escaped) == EscapedAfter(b, EscapedAfter(a, escaped))
  {
    ComposeState(a, b, escaped);
    if |a| == 0 {
      assert a + b == b;
    } else {
      var next := NextEscaped(a[0], escaped);
      assert (a + b)[0] == a[0];
      assert (a + b)[1..] == a[1..] + b;
      Compose(a[1..], b, next);
      AppendAssociative(Emit(a[0], escaped), TranslateFrom(a[1..], next),
                        TranslateFrom(b, EscapedAfter(a[1..], next)));
    }
  }

  lemma AppendAssociative<T>(x: seq<T>, y: seq<T>, z: seq<T>)
    ensures x + (y + z) == (x + y) + z
  {
  }

  /** The state half of compositionality. */
  lemma {:induction false} ComposeState(a: string, b: string, escaped: bool)
    ensures EscapedAfter(a + b, escaped) == EscapedAfter(b, EscapedAfter(a, escaped))
  {
    if |a| == 0 {
      assert a + b == b;
    } else {
      assert (a + b)[0] == a[0];
      assert (a + b)[1..] == a[1..] + b;
      ComposeState(a[1..], b, NextEscaped(a[0], escaped));
    }
  }

  /** When `a` leaves the state clear, the translation of `a + b` is the two translations side by side. */
  lemma ComposeClear(a: string, b: string)
    requires !EscapedAfter(a, false)
    ensures ConvertToNative(a + b) == ConvertToNative(a) + ConvertToNative(b)
  {
    Compose(a, b, false);
  }

  /** Reading one more character appends that character's contribution. */
  lemma Snoc(a: string, c: char, escaped: bool)
    ensures TranslateFrom(a + [c], escaped)
         == TranslateFrom(a, escaped) + Emit(c, EscapedAfter(a, escaped))
    ensures EscapedAfter(a + [c], escaped) == NextEscaped(c, EscapedAfter(a, escaped))
  {
    Compose(a, [c], escaped);
    assert TranslateFrom([c], EscapedAfter(a, escaped)) == Emit(c, EscapedAfter(a, escaped)) + [];
  }

  /** Outside an escape region a token is replaced by exactly its fragment. */
  lemma TokenOutsideEscape(a: string, c: char, b: string)
    requires c in DigitMap
    requires !EscapedAfter(a, false)
    ensures ConvertToNative(a + [c] + b) == ConvertToNative(a) + DigitMap[c] + ConvertToNative(b)
  {
    MarkersAreNotTokens();
    Snoc(a, c, false);
    assert TranslateFrom(a + [c], false) == TranslateFrom(a, false) + DigitMap[c];
    assert !EscapedAfter(a + [c], false);
    Compose(a + [c], b, false);
  }

  /** Inside an escape region a token is copied as itself. */
  lemma TokenInsideEscape(a: string, c: char, b: string, escaped: bool)
    requires c in DigitMap
    requires EscapedAfter(a, escaped)
    ensures TranslateFrom(a + [c] + b, escaped)
         == TranslateFrom(a, escaped) + [c] + TranslateFrom(b, true)
  {
    MarkersAreNotTokens();
    Snoc(a, c, escaped);
    assert TranslateFrom(a + [c], escaped) == TranslateFrom(a, escaped) + [c];
    assert EscapedAfter(a + [c], escaped);
    Compose(a + [c], b, escaped);
  }

  /**
   A character that is neither a marker nor a token is copied whatever the
   state, so text made only of such characters translates to itself and
   leaves the state alone.
   */
  lemma {:induction false} PlainIsCopied(s: string, escaped: bool)
    requires forall k :: 0 <= k < |s| ==> IsPlain(s[k])
    ensures TranslateFrom(s, escaped) == s
    ensures EscapedAfter(s, escaped) == escaped
  {
    if |s| > 0 {
      PlainIsCopied(s[1..], escaped);
      assert s == [s[0]] + s[1..];
    }
  }

  /**
   The fixed points of the translation: a format translates to itself exactly
   when it has no escape marker and no token in it.
   */
  lemma {:induction false} FixedPoints(s: string)
    ensures ConvertToNative(s) == s <==> forall k :: 0 <= k < |s| ==> IsPlain(s[k])
  {
    if forall k :: 0 <= k < |s| ==> IsPlain(s[k]) {
      PlainIsCopied(s, false);
    } else if (forall k :: 0 <= k < |s| ==> !IsMarker(s[k])) && ConvertToNative(s) == s {
      UnmarkedFixedPoint(s);
    } else {
      // Either the output already differs from `s`, or `s` holds a marker,
      // which the output never does.
      NoMarkersInOutput(s, false);
    }
  }

  /** Without markers, a format that translates to itself holds no token. */
  lemma {:induction false} UnmarkedFixedPoint(s: string)
    requires forall k :: 0 <= k < |s| ==> !IsMarker(s[k])
    requires TranslateFrom(s, false) == s
    ensures forall k :: 0 <= k < |s| ==> IsPlain(s[k])
  {
    if |s| > 0 {
      var c := s[0];
      var rest := TranslateFrom(s[1..], false);
      if c in DigitMap {
        FragmentShape(c);
        assert false;
      }
      assert TranslateFrom(s, false) == [c] + rest;
      assert rest == s[1..];
      UnmarkedFixedPoint(s[1..]);
      assert forall k :: 1 <= k < |s| ==> s[k] == s[1..][k - 1];
    }
  }

  /**
   Inside an escape region, up to the next `]`, every character is copied
   literally (tokens included) except further `[` markers, which are dropped;
   the state stays escaped throughout.
   */
  lemma {:induction false} EscapedRun(s: string)
    requires EscapeClose !in s
    ensures TranslateFrom(s, true) == DropMarkers(s)
    ensures EscapedAfter(s, true)
  {
    if |s| > 0 {
      assert EscapeClose !in s[1..] by {
        forall k | 0 <= k < |s[1..]| ensures s[1..][k] != EscapeClose {
          assert s[1..][k] == s[k + 1];
        }
      }
      EscapedRun(s[1..]);
    }
  }

  /** Text with no markers leaves the state as it found it. */
  lemma {:induction false} UnmarkedKeepsState(s: string, escaped: bool)
    requires forall k :: 0 <= k < |s| ==> !IsMarker(s[k])
    ensures EscapedAfter(s, escaped) == escaped
  {
    if |s| > 0 {
      UnmarkedKeepsState(s[1..], escaped);
    }
  }

  /** Text with no markers is its own marker-free version. */
  lemma {:induction false} DropMarkersUnmarked(s: string)
    requires forall k :: 0 <= k < |s| ==> !IsMarker(s[k])
    ensures DropMarkers(s) == s
  {
    if |s| > 0 {
      DropMarkersUnmarked(s[1..]);
      assert s == [s[0]] + s[1..];
    }
  }

  /**
   A matched escape: the text between `[` and the next `]` appears in the
   output as written, tokens included; translation resumes in the clear
   state after the `]`.
   */
  lemma EscapedLiteral(a: string, lit: string, b: string, escaped: bool)
    requires forall k :: 0 <= k < |lit| ==> !IsMarker(lit[k])
    ensures TranslateFrom(a + [EscapeOpen] + lit + [EscapeClose] + b, escaped)
         == TranslateFrom(a, escaped) + lit + ConvertToNative(b)
  {
    var open := a + [EscapeOpen];
    var inside := open + lit;
    var closed := inside + [EscapeClose];
    Snoc(a, EscapeOpen, escaped);
    assert TranslateFrom(open, escaped) == TranslateFrom(a, escaped);
    EscapedRun(lit);
    DropMarkersUnmarked(lit);
    Compose(open, lit, escaped);
    assert TranslateFrom(inside, escaped) == TranslateFrom(a, escaped) + lit;
    assert EscapedAfter(inside, escaped);
    Snoc(inside, EscapeClose, escaped);
    assert TranslateFrom(closed, escaped) == TranslateFrom(a, escaped) + lit;
    assert !EscapedAfter(closed, escaped);
    Compose(closed, b, escaped);
    assert closed + b == a + [EscapeOpen] + lit + [EscapeClose] + b;
  }

  /**
   An unclosed escape never fails: after a `[` with no later `]`, every
   character is copied literally, tokens included (further `[` are dropped).
   */
  lemma UnclosedEscape(a: string, b: string, escaped: bool)
    requires EscapeClose !in b
    ensures TranslateFrom(a + [EscapeOpen] + b, escaped) == TranslateFrom(a, escaped) + DropMarkers(b)
    ensures EscapedAfter(a + [EscapeOpen] + b, escaped)
  {
    Compose(a + [EscapeOpen], b, escaped);
    Snoc(a, EscapeOpen, escaped);
    EscapedRun(b);
  }

  /** A `]` is always dropped, and translation goes on in the clear state after it, balanced or not. */
  lemma CloseResets(a: string, b: string, escaped: bool)
    ensures TranslateFrom(a + [EscapeClose] + b, escaped) == TranslateFrom(a, escaped) + ConvertToNative(b)
    ensures EscapedAfter(a + [EscapeClose] + b, escaped) == EscapedAfter(b, false)
  {
    Compose(a + [EscapeClose], b, escaped);
    Snoc(a, EscapeClose, escaped);
  }

  /** The state at the end is decided by the last marker: escaped after `[`, clear after `]`, unchanged if none. */
  lemma {:induction false} EscapedAfterLastMarker(s: string, escaped: bool)
    ensures EscapedAfter(s, escaped)
         == match LastMarker(s)
            case None => escaped
            case Some(m) => m == EscapeOpen
  {
    if |s| > 0 {
      var init := s[..|s| - 1];
      assert s == init + [s[|s| - 1]];
      Snoc(init, s[|s| - 1], escaped);
      EscapedAfterLastMarker(init, escaped);
    }
  }

  /** The translations the library's own examples rely on. */
  lemma ExampleDate()
    ensures ConvertToNative("Y-m-d") == "2006-01-02"
  {
  }

  lemma ExampleClock()
    ensures ConvertToNative("H:i:s") == "15:04:05"
  {
  }

  lemma ExampleZone()
    ensures ConvertToNative("e") == "MST"
    ensures ConvertToNative("T") == "Z07:00"
  {
  }

  lemma ExampleEscapedWord()
    ensures ConvertToNative("[Date]: Y-m-d") == "Date: 2006-01-02"
  {
    assert "[Date]: Y-m-d" == [] + [EscapeOpen] + "Date" + [EscapeClose] + (": " + "Y-m-d");
    EscapedLiteral([], "Date", ": " + "Y-m-d", false);
    assert TranslateFrom([], false) == [];
    CaptionedDate();
    ExampleLayoutsSpelled();
  }

  /** The unescaped tail of the escaped-word example. */
  lemma CaptionedDate()
    ensures ConvertToNative(": " + "Y-m-d") == ": " + "2006-01-02"
  {
    PlainIsCopied(": ", false);
    ComposeClear(": ", "Y-m-d");
    ExampleDate();
  }

  lemma ExampleRfc3339()
    ensures ConvertToNative("Y-m-d[T]H:i:sT") == "2006-01-02T15:04:05Z07:00"
  {
    assert "Y-m-d[T]H:i:sT" == "Y-m-d" + [EscapeOpen] + "T" + [EscapeClose] + ("H:i:s" + "T");
    EscapedLiteral("Y-m-d", "T", "H:i:s" + "T", false);
    ExampleDate();
    ClockWithOffset();
    ExampleLayoutsSpelled();
  }

  /** The tail of the RFC 3339 example, after the escaped `T`. */
  lemma ClockWithOffset()
    ensures ConvertToNative("H:i:s" + "T") == "15:04:05" + "Z07:00"
  {
    UnmarkedKeepsState("H:i:s", false);
    ComposeClear("H:i:s", "T");
    ExampleClock();
    ExampleZone();
  }

  /** The example layouts, spelled out from the pieces the translation produces. */
  lemma ExampleLayoutsSpelled()
    ensures [] + "Date" + (": " + "2006-01-02") == "Date: 2006-01-02"
    ensures "2006-01-02" + "T" + ("15:04:05" + "Z07:00") == "2006-01-02T15:04:05Z07:00"
  {
  }

  /** The loop of `convertToNative`: one pass, one flag, output accumulated in `native`. */
  method ConvertToNativeLoop(format: string) returns (native: string)
    ensures native == ConvertToNative(format)
  {
    native := [];
    var escaped := false;
    var i := 0;
    while i < |format|
      invariant 0 <= i <= |format|
      invariant native == TranslateFrom(format[..i], false)
      invariant escaped == EscapedAfter(format[..i], false)
    {
      var s := format[i];
      Snoc(format[..i], s, false);
      assert format[..i + 1] == format[..i] + [s];
      if s == EscapeOpen {
        escaped := true;
      } else if s == EscapeClose {
        escaped := false;
      } else if s in DigitMap && !escaped {
        native := native + DigitMap[s];
      } else {
        native := native + [s];
      }
      i := i + 1;
    }
    assert format[..i] == format;
  }
}
