/**
 * Poll::create: choosing a backend by name.  The name is a C string, so it
 * ends at its first NUL, and it is compared with strcasecmp, which ignores
 * ASCII case.
 */
module PollFactory {
  import opened PollBase
  import opened DefBackend
  import opened FifoBackend

  /** The two backends a name can select. */
  datatype Backend = Def | Fifo

  /** A constructed multiplexer of either kind. */
  datatype Poller = DefPoller(def: PollDef) | FifoPoller(fifo: FifoPoll)

  /** tolower in the C locale: only 'A'..'Z' change. */
  function Lower(c: char): (r: char)
    ensures 'A' <= c <= 'Z' ==> r as int == c as int + 32
    ensures !('A' <= c <= 'Z') ==> r == c
  {
    if 'A' <= c <= 'Z' then (c as int + 32) as char else c
  }

  /** The characters of a C string: everything before the first NUL (CStrSpec). */
  function CStr(s: string): string
    decreases |s|
  {
    if s == [] || s[0] == '\0' then [] else [s[0]] + CStr(s[1..])
  }

  /** A C string is the NUL-free prefix of its buffer, cut at the first NUL if there is one. */
  lemma {:induction false} CStrSpec(s: string)
    ensures |CStr(s)| <= |s| && CStr(s) == s[..|CStr(s)|]
    ensures '\0' !in CStr(s)
    ensures |CStr(s)| < |s| ==> s[|CStr(s)|] == '\0'
    decreases |s|
  {
    if s != [] && s[0] != '\0' {
      CStrSpec(s[1..]);
      var r := CStr(s[1..]);
      assert CStr(s) == [s[0]] + r;
      assert s == [s[0]] + s[1..];
    }
  }

  /** Every character through Lower. */
  function LowerAll(s: string): string
    decreases |s|
  {
    if s == [] then [] else [Lower(s[0])] + LowerAll(s[1..])
  }

  /** Lowering keeps the length and maps each character on its own. */
  lemma {:induction false} LowerAllSpec(s: string)
    ensures |LowerAll(s)| == |s|
    ensures forall i :: 0 <= i < |s| ==> LowerAll(s)[i] == Lower(s[i])
    decreases |s|
  {
    if s != [] {
      LowerAllSpec(s[1..]);
      forall i | 0 <= i < |s| ensures LowerAll(s)[i] == Lower(s[i]) {
        if i > 0 {
          assert LowerAll(s)[i] == LowerAll(s[1..])[i - 1];
        }
      }
    }
  }

  /**
   * strcasecmp(a, b) == 0: walk both strings together; they match when they
   * end (at a NUL or the end of the buffer) at the same place and every
   * character before agrees up to case.
   */
  function StrCaseEq(a: string, b: string): bool
    decreases |a|
  {
    var aEnd := a == [] || a[0] == '\0';
    var bEnd := b == [] || b[0] == '\0';
    if aEnd || bEnd then aEnd && bEnd
    else Lower(a[0]) == Lower(b[0]) && StrCaseEq(a[1..], b[1..])
  }

  /** strcasecmp reports equality exactly when the lowered C strings are equal. */
  lemma {:induction false} StrCaseEqSpec(a: string, b: string)
    ensures StrCaseEq(a, b) <==> LowerAll(CStr(a)) == LowerAll(CStr(b))
    decreases |a|
  {
    var aEnd := a == [] || a[0] == '\0';
    var bEnd := b == [] || b[0] == '\0';
    if aEnd || bEnd {
      assert aEnd ==> CStr(a) == [];
      assert bEnd ==> CStr(b) == [];
      assert !aEnd ==> |LowerAll(CStr(a))| > 0 by {
        if !aEnd { assert CStr(a) == [a[0]] + CStr(a[1..]); }
      }
      assert !bEnd ==> |LowerAll(CStr(b))| > 0 by {
        if !bEnd { assert CStr(b) == [b[0]] + CStr(b[1..]); }
      }
    } else {
      StrCaseEqSpec(a[1..], b[1..]);
      var ra, rb := CStr(a[1..]), CStr(b[1..]);
      assert CStr(a) == [a[0]] + ra && CStr(b) == [b[0]] + rb;
      assert LowerAll([a[0]] + ra) == [Lower(a[0])] + LowerAll(ra) by {
        assert ([a[0]] + ra)[1..] == ra;
      }
      assert LowerAll([b[0]] + rb) == [Lower(b[0])] + LowerAll(rb) by {
        assert ([b[0]] + rb)[1..] == rb;
      }
      if LowerAll(CStr(a)) == LowerAll(CStr(b)) {
        assert LowerAll(ra) == LowerAll(CStr(a))[1..];
        assert LowerAll(rb) == LowerAll(CStr(b))[1..];
      }
    }
  }

  /** The backend a name selects (ChooseSpec). */
  function Choose(name: string): Result<Backend> {
    if StrCaseEq(name, "def") then Ok(Def)
    else if StrCaseEq(name, "fifo") then Ok(Fifo)
    else Thrown(DException(""))
  }

  lemma LiteralDef()
    ensures CStr("def") == "def" && LowerAll("def") == "def"
  {
    assert "def"[1..] == "ef" && "ef"[1..] == "f" && "f"[1..] == "";
  }

  lemma LiteralFifo()
    ensures CStr("fifo") == "fifo" && LowerAll("fifo") == "fifo"
  {
    assert "fifo"[1..] == "ifo" && "ifo"[1..] == "fo" && "fo"[1..] == "o" && "o"[1..] == "";
  }

  /** "def" or "fifo" in any case selects that backend; any other name throws DException. */
  lemma ChooseSpec(name: string)
    ensures Choose(name) == Ok(Def) <==> LowerAll(CStr(name)) == "def"
    ensures Choose(name) == Ok(Fifo) <==> LowerAll(CStr(name)) == "fifo"
    ensures Choose(name).Thrown? <==> LowerAll(CStr(name)) != "def" && LowerAll(CStr(name)) != "fifo"
    ensures Choose(name).Thrown? ==> Choose(name).error == DException("")
  {
    StrCaseEqSpec(name, "def");
    StrCaseEqSpec(name, "fifo");
    LiteralDef();
    LiteralFifo();
    assert "def" != "fifo" by { assert |"def"| != |"fifo"|; }
  }

  /** Poll::create: a new, empty multiplexer of the chosen kind. */
  method Create(name: string) returns (r: Result<Poller>)
    ensures Choose(name).Thrown? ==> r == Thrown(Choose(name).error)
    ensures Choose(name) == Ok(Def) ==>
      r.Ok? && r.value.DefPoller? && fresh(r.value.def) && r.value.def.Valid()
      && r.value.def.ctxMap == map[] && r.value.def.Entries() == [] && r.value.def.lastCheck == 0
    ensures Choose(name) == Ok(Fifo) ==>
      r.Ok? && r.value.FifoPoller? && fresh(r.value.fifo)
      && r.value.fifo.table == map[] && r.value.fifo.lastCheck == 0
  {
    match Choose(name)
    case Ok(Def) =>
      var p := new PollDef();
      r := Ok(DefPoller(p));
    case Ok(Fifo) =>
      var p := new FifoPoll();
      r := Ok(FifoPoller(p));
    case Thrown(e) =>
      r := Thrown(e);
  }

  /** Names are matched without regard to case. */
  lemma ChooseIgnoresCase()
    ensures Choose("DEF") == Ok(Def)
    ensures Choose("Fifo") == Ok(Fifo)
  {
    assert StrCaseEq("DEF", "def") by {
      assert "DEF"[1..] == "EF" && "EF"[1..] == "F" && "F"[1..] == "";
      assert "def"[1..] == "ef" && "ef"[1..] == "f" && "f"[1..] == "";
    }
    assert !StrCaseEq("Fifo", "def");
    assert StrCaseEq("Fifo", "fifo") by {
      assert "Fifo"[1..] == "ifo" && "ifo"[1..] == "fo" && "fo"[1..] == "o" && "o"[1..] == "";
      assert "fifo"[1..] == "ifo";
    }
  }

  /** A name is read only up to its first NUL, and an unknown or empty name throws. */
  lemma ChooseCString()
    ensures Choose("def\0poll") == Ok(Def)
    ensures Choose("epoll") == Thrown(DException(""))
    ensures Choose("") == Thrown(DException(""))
  {
    assert StrCaseEq("def\0poll", "def") by {
      assert "def\0poll"[1..] == "ef\0poll" && "ef\0poll"[1..] == "f\0poll" && "f\0poll"[1..] == "\0poll";
      assert "def"[1..] == "ef" && "ef"[1..] == "f" && "f"[1..] == "";
    }
    assert !StrCaseEq("epoll", "def") && !StrCaseEq("epoll", "fifo");
    assert !StrCaseEq("", "def") && !StrCaseEq("", "fifo");
  }
}
