/** Session ids as the files and pins spell them, and as they are listed. */
module SessionIds {
  import opened Wrappers

  predicate IsControl(c: char) {
    c as int <= 0x1f || 0x7f <= c as int <= 0x9f
  }

  /** Session ids are stripped of control characters when they are read. */
  function Printable(raw: string): string {
    if raw == "" then ""
    else Printable(raw[..|raw| - 1]) + if IsControl(raw[|raw| - 1]) then "" else [raw[|raw| - 1]]
  }

  function CleanId(raw: string): Option<string> {
    if Printable(raw) == "" then None else Some(Printable(raw))
  }

  lemma {:induction false} PrintableIsIdentity(raw: string)
    ensures Printable(raw) == raw <==> forall c <- raw :: !IsControl(c)
    ensures |Printable(raw)| <= |raw|
  {
    if raw != "" {
      var init, last := raw[..|raw| - 1], raw[|raw| - 1];
      assert raw == init + [last];
      PrintableIsIdentity(init);
    }
  }

  lemma {:induction false} SomePrintable(raw: string)
    ensures CleanId(raw).Some? <==> exists c <- raw :: !IsControl(c)
  {
    if raw != "" {
      assert raw == raw[..|raw| - 1] + [raw[|raw| - 1]];
      SomePrintable(raw[..|raw| - 1]);
    }
  }

  /** An id is the characters of the name that are not controls, in their order: the controls
      are those below the space, the delete character and the 32 behind it. */
  lemma {:induction false} PrintableOf(a: string, c: char, b: string)
    ensures Printable(a + [c] + b) ==
            if c < ' ' || '\U{7F}' <= c <= '\U{9F}' then Printable(a + b) else Printable(a) + [c] + Printable(b)
  {
    PrintableAppend(a + [c], b);
    PrintableAppend(a, b);
    assert (a + [c])[..|a|] == a;
  }

  lemma {:induction false} PrintableAppend(a: string, b: string)
    ensures Printable(a + b) == Printable(a) + Printable(b)
  {
    if b == "" {
      assert a + b == a;
    } else {
      PrintableAppend(a, b[..|b| - 1]);
      assert (a + b)[..|a + b| - 1] == a + b[..|b| - 1];
    }
  }
}
