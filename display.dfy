/**
  The text pipeline of `updateDisplay`: upper-case the message, keep only
  the glyphs the LED panel can draw (printable ASCII), cut to 64 characters
  and pad four spaces on each side for a clean scroll-in and scroll-out.
 */
module DisplayText {
  import opened Platform

  /** Four spaces, the scroll margin on each side. */
  const PADDING: seq<byte> := [32, 32, 32, 32]
  /** The longest text that is scrolled. */
  const MAX_TEXT: nat := 64

  /** The glyphs the panel can draw: printable ASCII 32..126. */
  predicate Printable(b: byte) { 32 <= b <= 126 }

  predicate IsLower(b: byte) { 'a' as int <= b <= 'z' as int }

  /** The printable bytes of `s`, in their order. */
  function Clean(s: seq<byte>): (r: seq<byte>)
    ensures |r| <= |s|
    ensures forall i :: 0 <= i < |r| ==> Printable(r[i])
  {
    if s == [] then []
    else Clean(s[..|s| - 1]) + (if Printable(s[|s| - 1]) then [s[|s| - 1]] else [])
  }

  /** Filtering distributes over concatenation, so kept bytes stay in their relative order. */
  lemma {:induction false} CleanAppend(a: seq<byte>, b: seq<byte>)
    ensures Clean(a + b) == Clean(a) + Clean(b)
  {
    if b == [] {
      assert a + b == a;
    } else {
      var n := |b| - 1;
      assert (a + b)[..|a + b| - 1] == a + b[..n];
      CleanAppend(a, b[..n]);
    }
  }

  /** Every printable byte is kept as often as it occurs; every other byte is dropped. */
  lemma {:induction false} CleanCount(s: seq<byte>, x: byte)
    ensures multiset(Clean(s))[x] == if Printable(x) then multiset(s)[x] else 0
  {
    if s != [] {
      var n := |s| - 1;
      assert s == s[..n] + [s[n]];
      CleanCount(s[..n], x);
    }
  }

  /** Text that is all printable passes the filter unchanged. */
  lemma {:induction false} CleanOfPrintable(s: seq<byte>)
    requires forall i :: 0 <= i < |s| ==> Printable(s[i])
    ensures Clean(s) == s
  {
    if s != [] {
      CleanOfPrintable(s[..|s| - 1]);
    }
  }

  /**
    The text part of the scroll buffer: upper-cased, filtered, cut to 64.
    Upper-casing stops at an embedded NUL, which the filter then drops, so
    only a NUL-free message is sure to come out without lower-case letters.
   */
  function Sanitize(message: seq<byte>): (r: seq<byte>)
    ensures |r| <= MAX_TEXT
    ensures forall i :: 0 <= i < |r| ==> Printable(r[i])
    ensures 0 !in message ==> forall i :: 0 <= i < |r| ==> !IsLower(r[i])
    ensures |r| <= |Clean(ToUpper(message))| && r == Clean(ToUpper(message))[..|r|]
    ensures |r| < MAX_TEXT ==> r == Clean(ToUpper(message))
  {
    var c := Clean(ToUpper(message));
    NoLowerAfterUpper(message);
    if |c| > MAX_TEXT then c[..MAX_TEXT] else c
  }

  /** Filtering cannot bring in a lower-case letter that was not there. */
  lemma UpperCleanHasNoLower(u: seq<byte>)
    requires forall i :: 0 <= i < |u| ==> !IsLower(u[i])
    ensures forall i :: 0 <= i < |Clean(u)| ==> !IsLower(Clean(u)[i])
  {
    forall x: byte | IsLower(x) ensures x !in Clean(u) {
      CleanCount(u, x);
      assert x !in multiset(u);
    }
  }

  /** A NUL-free message has no lower-case letter once upper-cased and filtered. */
  lemma NoLowerAfterUpper(message: seq<byte>)
    ensures 0 !in message ==> forall i :: 0 <= i < |Clean(ToUpper(message))| ==> !IsLower(Clean(ToUpper(message))[i])
  {
    if 0 !in message {
      CStringOfTerminated(message, []);
      assert message + [] == message;
      UpperCleanHasNoLower(ToUpper(message));
    }
  }

  /**
    Past an embedded NUL the letters keep their case, yet the filter drops
    the NUL itself: "a", NUL, "b" is drawn as "Ab".
   */
  lemma SanitizeKeepsCaseAfterNul()
    ensures Sanitize([97, 0, 98]) == [65, 98]
    ensures Sanitize(Sanitize([97, 0, 98])) == [65, 66]
  {
    var m: seq<byte> := [97, 0, 98];
    assert CString(m) == [97] by {
      assert m == [97] + [0, 98];
      CStringOfTerminated([97], [0, 98]);
    }
    assert ToUpper(m) == [65, 0, 98];
    var u: seq<byte> := [65, 0, 98];
    assert u[..2][..1] == [65];
    assert Clean(u) == [65, 98];
    var t: seq<byte> := [65, 98];
    CStringOfTerminated(t, []);
    assert t + [] == t;
    assert ToUpper(t) == [65, 66];
    CleanOfPrintable([65, 66]);
  }

  /** `scroll_text` for a non-empty message. */
  function ScrollBuffer(message: seq<byte>): (r: seq<byte>)
    ensures 2 * |PADDING| <= |r| <= 2 * |PADDING| + MAX_TEXT
    ensures r[..|PADDING|] == PADDING && r[|r| - |PADDING|..] == PADDING
    ensures r[|PADDING|..|r| - |PADDING|] == Sanitize(message)
  {
    PADDING + Sanitize(message) + PADDING
  }

  /** Printable text of at most 64 characters scrolls as exactly its upper-case form between the margins. */
  lemma ScrollBufferOfPrintable(text: seq<byte>)
    requires |text| <= MAX_TEXT
    requires forall i :: 0 <= i < |text| ==> Printable(text[i])
    ensures ScrollBuffer(text) == PADDING + ToUpper(text) + PADDING
  {
    CleanOfPrintable(ToUpper(text));
  }

  /**
    Sanitizing a NUL-free message twice changes nothing more; any message
    is settled after two passes, the first having dropped every NUL.
   */
  lemma SanitizeIdempotent(message: seq<byte>)
    ensures 0 !in message ==> Sanitize(Sanitize(message)) == Sanitize(message)
    ensures Sanitize(Sanitize(Sanitize(message))) == Sanitize(Sanitize(message))
  {
    if 0 !in message {
      SanitizeFixed(Sanitize(message));
    }
    var s := Sanitize(message);
    assert 0 !in s by {
      assert forall i :: 0 <= i < |s| ==> Printable(s[i]);
    }
    SanitizeFixed(Sanitize(s));
  }

  /** Printable text without lower-case letters and at most 64 long is its own sanitized form. */
  lemma SanitizeFixed(s: seq<byte>)
    requires |s| <= MAX_TEXT
    requires forall i :: 0 <= i < |s| ==> Printable(s[i]) && !IsLower(s[i])
    ensures Sanitize(s) == s
  {
    assert 0 !in s by {
      assert forall i :: 0 <= i < |s| ==> Printable(s[i]);
    }
    CStringOfTerminated(s, []);
    assert s + [] == s;
    assert ToUpper(s) == s;
    CleanOfPrintable(s);
  }

  /**
    The filtering loop of `updateDisplay`: walks the upper-cased text and
    appends every byte in 32..126 to `clean_text`.
   */
  method CleanText(text: seq<byte>) returns (clean: seq<byte>)
    ensures clean == Clean(text)
  {
    clean := [];
    var i := 0;
    while i < |text|
      invariant 0 <= i <= |text|
      invariant clean == Clean(text[..i])
    {
      var c := text[i];
      if 32 <= c <= 126 {
        clean := clean + [c];
      }
      assert text[..i + 1][..i] == text[..i];
      i := i + 1;
    }
    assert text[..i] == text;
  }
}
