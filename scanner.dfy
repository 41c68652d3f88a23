/** The code generator's name mangling and its per-argument rules: which Go
    parameter each protocol argument becomes, which values a request passes
    to NewMessage and WithFds, which readers an event listener calls, and
    the opcodes it numbers requests and events with. */
module Scanner {
  import opened Wire
  import opened Messages

  // ---------------------------------------------------------------------
  // Splitting on underscores.

  /** Text with no underscore in it. */
  predicate NoUnderscore(s: string)
  {
    '_' !in s
  }

  /** Pieces none of which holds an underscore. */
  predicate AllPieces(parts: seq<string>)
  {
    forall i :: 0 <= i < |parts| ==> NoUnderscore(parts[i])
  }

  lemma AllPiecesCons(parts: seq<string>)
    requires |parts| >= 1
    ensures AllPieces(parts) <==> NoUnderscore(parts[0]) && AllPieces(parts[1..])
  {
    if NoUnderscore(parts[0]) && AllPieces(parts[1..]) {
      forall i | 0 <= i < |parts| ensures NoUnderscore(parts[i]) {
        if i > 0 {
          assert parts[i] == parts[1..][i - 1];
        }
      }
    }
  }

  /** strings.Join(parts, "_"). */
  function JoinUnderscore(parts: seq<string>): string
    requires |parts| >= 1
    decreases |parts|
  {
    if |parts| == 1 then parts[0] else parts[0] + "_" + JoinUnderscore(parts[1..])
  }

  /** strings.Split(s, "_"): the underscore-free pieces between the
      underscores of `s`, empty ones included. */
  function Split(s: string): (parts: seq<string>)
    ensures |parts| >= 1
    ensures AllPieces(parts)
    decreases |s|
  {
    if s == "" then [""]
    else
      var rest := Split(s[1..]);
      AllPiecesCons(rest);
      if s[0] == '_' then
        assert ([""] + rest)[1..] == rest;
        AllPiecesCons([""] + rest);
        [""] + rest
      else
        var parts := [[s[0]] + rest[0]] + rest[1..];
        assert parts[1..] == rest[1..];
        AllPiecesCons(parts);
        parts
  }

  /** Joining the pieces back with "_" gives the text that was split. */
  lemma {:induction false} JoinSplit(s: string)
    ensures JoinUnderscore(Split(s)) == s
    decreases |s|
  {
    if s != "" {
      var rest := Split(s[1..]);
      JoinSplit(s[1..]);
      if s[0] == '_' {
        assert Split(s) == [""] + rest;
        assert Split(s)[1..] == rest;
        assert s == "_" + s[1..];
      } else {
        var parts := Split(s);
        assert parts == [[s[0]] + rest[0]] + rest[1..];
        if |rest| == 1 {
          assert s == [s[0]] + s[1..];
        } else {
          assert parts[1..] == rest[1..];
          assert JoinUnderscore(rest) == rest[0] + "_" + JoinUnderscore(rest[1..]);
          assert s == [s[0]] + s[1..];
        }
      }
    }
  }

  /** Prefixing underscore-free text extends the first piece. */
  lemma {:induction false} SplitPrefix(p: string, s: string)
    requires NoUnderscore(p)
    ensures Split(p + s) == [p + Split(s)[0]] + Split(s)[1..]
    decreases |p|
  {
    var parts := Split(s);
    if p != "" {
      assert (p + s)[1..] == p[1..] + s && (p + s)[0] == p[0] != '_';
      var rest := Split(p[1..] + s);
      assert rest == [p[1..] + parts[0]] + parts[1..] by {
        SplitPrefix(p[1..], s);
      }
      assert Split(p + s) == [[p[0]] + rest[0]] + rest[1..];
      assert [p[0]] + (p[1..] + parts[0]) == p + parts[0];
      assert rest[1..] == parts[1..];
    } else {
      assert p + s == s;
      assert parts == [parts[0]] + parts[1..];
      assert p + parts[0] == parts[0];
    }
  }

  /** A leading underscore starts with an empty piece. */
  lemma SplitUnderscore(t: string)
    ensures Split("_" + t) == [""] + Split(t)
  {
    assert ("_" + t)[1..] == t;
  }

  /** Splitting undoes joining: Split and JoinUnderscore are inverse on
      lists of underscore-free pieces. */
  lemma {:induction false} SplitJoin(parts: seq<string>)
    requires |parts| >= 1 && AllPieces(parts)
    ensures Split(JoinUnderscore(parts)) == parts
    decreases |parts|
  {
    var p := parts[0];
    AllPiecesCons(parts);
    if |parts| == 1 {
      SplitPrefix(p, "");
      assert Split("") == [""];
      assert p + "" == p;
      assert [p] + [""][1..] == parts;
    } else {
      var rest := parts[1..];
      var tail := JoinUnderscore(rest);
      var u := "_" + tail;
      assert JoinUnderscore(parts) == p + u;
      SplitJoin(rest);
      SplitUnderscore(tail);
      SplitPrefix(p, u);
      assert Split(u)[0] == "" && Split(u)[1..] == rest;
      assert p + "" == p;
      assert [p] + rest == parts;
    }
  }

  // ---------------------------------------------------------------------
  // Case conversion.

  /** strings.ToUpper on one character, for the ASCII range. */
  function Upper(c: char): (u: char)
    ensures 'a' <= c <= 'z' ==> 'A' <= u <= 'Z' && u as int == c as int - 32
    ensures !('a' <= c <= 'z') ==> u == c
  {
    if 'a' <= c <= 'z' then (c as int - 32) as char else c
  }

  /** One piece with its first character upper-cased; empty stays empty. */
  function Capitalize(part: string): (c: string)
    ensures |c| == |part|
    ensures NoUnderscore(part) ==> NoUnderscore(c)
  {
    if |part| > 0 then [Upper(part[0])] + part[1..] else ""
  }

  /** The pieces, each capitalised, concatenated. */
  function PascalJoin(parts: seq<string>): (r: string)
    ensures AllPieces(parts) ==> NoUnderscore(r)
    decreases |parts|
  {
    if parts == [] then ""
    else
      AllPiecesCons(parts);
      Capitalize(parts[0]) + PascalJoin(parts[1..])
  }

  lemma {:induction false} PascalJoinSnoc(parts: seq<string>, p: string)
    ensures PascalJoin(parts + [p]) == PascalJoin(parts) + Capitalize(p)
    decreases |parts|
  {
    if parts == [] {
      assert [p][1..] == [];
    } else {
      assert (parts + [p])[1..] == parts[1..] + [p];
      PascalJoinSnoc(parts[1..], p);
    }
  }

  /** The first piece as it is, the later ones capitalised. */
  function CamelJoin(parts: seq<string>): (r: string)
    ensures AllPieces(parts) ==> NoUnderscore(r)
  {
    if parts == [] then ""
    else
      AllPiecesCons(parts);
      parts[0] + PascalJoin(parts[1..])
  }

  lemma CamelJoinSnoc(parts: seq<string>, p: string)
    ensures parts == [] ==> CamelJoin(parts + [p]) == p
    ensures parts != [] ==> CamelJoin(parts + [p]) == CamelJoin(parts) + Capitalize(p)
  {
    var q := parts + [p];
    if parts == [] {
      assert q[1..] == [];
      assert CamelJoin(q) == p + "";
    } else {
      assert q[1..] == parts[1..] + [p];
      PascalJoinSnoc(parts[1..], p);
    }
  }

  /** The loop step of toPascalCase: one more piece, capitalised. */
  lemma PascalStep(parts: seq<string>, i: nat)
    requires i < |parts|
    ensures PascalJoin(parts[..i + 1]) == PascalJoin(parts[..i]) + Capitalize(parts[i])
  {
    TakeSnoc(parts, i);
    PascalJoinSnoc(parts[..i], parts[i]);
  }

  /** The loop step of toCamelCase: the first piece verbatim, later ones
      capitalised. */
  lemma CamelStep(parts: seq<string>, i: nat)
    requires i < |parts|
    ensures CamelJoin(parts[..i + 1])
         == CamelJoin(parts[..i]) + if i == 0 then parts[i] else Capitalize(parts[i])
  {
    var pre := parts[..i];
    TakeSnoc(parts, i);
    CamelJoinSnoc(pre, parts[i]);
    if i == 0 {
      assert pre == [];
      assert CamelJoin(pre) + parts[i] == parts[i];
    } else {
      assert pre != [];
    }
  }

  /** Reference definition, one character at a time: every underscore is
      dropped, and the first character after an underscore (or at the start,
      when `upperNext` holds) is upper-cased. */
  function Mangle(s: string, upperNext: bool): (r: string)
    ensures NoUnderscore(r)
    decreases |s|
  {
    if s == "" then ""
    else if s[0] == '_' then Mangle(s[1..], true)
    else [if upperNext then Upper(s[0]) else s[0]] + Mangle(s[1..], false)
  }

  /** Both case conversions, piece by piece, agree with the character-level
      reference: PascalCase capitalises every piece, camelCase all but the
      first. */
  lemma {:induction false} MangleSplit(s: string)
    ensures Mangle(s, true) == PascalJoin(Split(s))
    ensures Mangle(s, false) == CamelJoin(Split(s))
    decreases |s|
  {
    if s != "" {
      MangleSplit(s[1..]);
      var rest := Split(s[1..]);
      if s[0] == '_' {
        assert Split(s)[1..] == rest;
      } else {
        var first := [s[0]] + rest[0];
        assert Split(s) == [first] + rest[1..];
        assert Split(s)[1..] == rest[1..];
        assert Capitalize(first) == [Upper(s[0])] + rest[0];
      }
    }
  }

  /** The renaming of Go keywords toCamelCase applies to its result. */
  function AvoidKeyword(name: string): (r: string)
    ensures r != "range" && r != "interface"
    ensures name != "range" && name != "interface" ==> r == name
    ensures NoUnderscore(name) ==> NoUnderscore(r)
  {
    if name == "range" then "rnge" else if name == "interface" then "iface" else name
  }

  /** What toPascalCase returns. */
  function PascalName(s: string): (r: string)
    ensures NoUnderscore(r)
  {
    Mangle(s, true)
  }

  /** What toCamelCase returns: no underscore and never a Go keyword. */
  function CamelName(s: string): (r: string)
    ensures NoUnderscore(r)
    ensures r != "range" && r != "interface"
  {
    AvoidKeyword(Mangle(s, false))
  }

  /** A name without an underscore only gets its first character upper-cased. */
  lemma PascalNamePiece(s: string)
    requires NoUnderscore(s)
    ensures PascalName(s) == Capitalize(s)
  {
    ManglePiece(s);
  }

  /** A name without an underscore that is not a Go keyword is kept as it is. */
  lemma CamelNameKeeps(s: string)
    requires NoUnderscore(s) && s != "range" && s != "interface"
    ensures CamelName(s) == s
  {
    ManglePiece(s);
  }

  /** toPascalCase: capitalises each underscore-separated piece and joins
      them without the underscores. */
  method ToPascalCase(str: string) returns (r: string)
    ensures r == PascalName(str)
    ensures NoUnderscore(r)
  {
    var parts := Split(str);
    var builder := "";
    for i := 0 to |parts|
      invariant builder == PascalJoin(parts[..i])
    {
      builder := AppendCapitalized(builder, parts[i]);
      PascalStep(parts, i);
    }
    assert builder == Mangle(str, true) by {
      assert parts[..|parts|] == parts;
      MangleSplit(str);
    }
    r := builder;
  }

  /** One step of both loops: the first letter of `part` upper-cased and
      the rest written as it is. */
  method AppendCapitalized(builder: string, part: string) returns (b: string)
    ensures b == builder + Capitalize(part)
  {
    b := builder;
    if |part| > 0 {
      b := b + [Upper(part[0])];
      b := b + part[1..];
    }
  }

  /** toCamelCase: the first piece verbatim, each later piece capitalised,
      and the Go keywords `range` and `interface` renamed. */
  method ToCamelCase(str: string) returns (r: string)
    ensures r == CamelName(str)
    ensures NoUnderscore(r)
  {
    var parts := Split(str);
    var builder := "";
    for i := 0 to |parts|
      invariant builder == CamelJoin(parts[..i])
    {
      if i == 0 {
        builder := builder + parts[i];
      } else {
        builder := AppendCapitalized(builder, parts[i]);
      }
      CamelStep(parts, i);
    }
    assert builder == Mangle(str, false) by {
      assert parts[..|parts|] == parts;
      MangleSplit(str);
    }
    r := RenameKeyword(builder);
  }

  /** The tail of toCamelCase: `range` and `interface` are Go keywords. */
  method RenameKeyword(name: string) returns (r: string)
    ensures r == AvoidKeyword(name)
  {
    r := name;
    if r == "range" {
      r := "rnge";
    } else if r == "interface" {
      r := "iface";
    }
  }

  /** Mangle on a string given by its first character. */
  lemma MangleCons(c: char, s: string, upperNext: bool)
    ensures Mangle([c] + s, upperNext)
         == if c == '_' then Mangle(s, true) else [if upperNext then Upper(c) else c] + Mangle(s, false)
  {
    assert ([c] + s)[1..] == s;
  }

  /** Whether Mangle upper-cases the next character after reading `a`. */
  function After(a: string, upperNext: bool): bool
  {
    if a == "" then upperNext else a[|a| - 1] == '_'
  }

  /** Mangling works piece by piece: the text after `a` is converted in
      the state `a` leaves behind. */
  lemma {:induction false} MangleAppend(a: string, b: string, upperNext: bool)
    ensures Mangle(a + b, upperNext) == Mangle(a, upperNext) + Mangle(b, After(a, upperNext))
    decreases |a|
  {
    if a == "" {
      assert a + b == b;
    } else {
      assert (a + b)[0] == a[0];
      assert (a + b)[1..] == a[1..] + b;
      MangleAppend(a[1..], b, a[0] == '_');
    }
  }

  /** Underscore-free text is kept as it is, or capitalised. */
  lemma {:induction false} ManglePiece(s: string)
    requires NoUnderscore(s)
    ensures Mangle(s, false) == s
    ensures Mangle(s, true) == Capitalize(s)
    decreases |s|
  {
    if s != "" {
      assert s[0] in s;
      assert NoUnderscore(s[1..]) by {
        forall i | 0 <= i < |s[1..]| ensures s[1..][i] != '_' {
          assert s[1..][i] == s[i + 1];
          assert s[i + 1] in s;
        }
      }
      ManglePiece(s[1..]);
      assert s == [s[0]] + s[1..];
    }
  }

  /** An underscore splits the conversion: what follows it starts
      upper-cased, whatever came before. */
  lemma MangleJoin(a: string, b: string, upperNext: bool)
    ensures Mangle(a + "_" + b, upperNext) == Mangle(a, upperNext) + Mangle(b, true)
  {
    MangleAppend(a, "_" + b, upperNext);
    MangleCons('_', b, After(a, upperNext));
    assert a + ("_" + b) == a + "_" + b;
  }

  /** An interface name from the protocol files, converted. The pieces are
      parameters because Dafny unfolds Mangle without limit on literal
      arguments. */
  lemma PascalExample(wl: string, shm: string, pool: string)
    requires wl == "wl" && shm == "shm" && pool == "pool"
    ensures PascalName(wl + "_" + shm + "_" + pool) == "WlShmPool"
  {
    MangleJoin(wl + "_" + shm, pool, true);
    MangleJoin(wl, shm, true);
    ManglePiece(wl);
    ManglePiece(shm);
    ManglePiece(pool);
  }

  /** An argument name from the protocol files, converted. */
  lemma CamelExample(callback: string, data: string)
    requires callback == "callback" && data == "data"
    ensures CamelName(callback + "_" + data) == "callbackData"
  {
    MangleJoin(callback, data, false);
    ManglePiece(callback);
    ManglePiece(data);
  }

  // ---------------------------------------------------------------------
  // Go types and the type switch of NewMessage.

  /** The Go type of a generated parameter or of a value passed on. */
  datatype GoType =
    | GoString
    | GoUint32
    | GoInt32
    | GoInt
    | GoUint32Slice
    | GoNamed(name: string)   // a defined type: wayland.Fixed, an interface's type
    | GoNone                  // no type written: the generator met an unknown type

  /** The dynamic type with which an argument value reaches NewMessage. */
  function KindOf(a: Arg): (t: GoType)
    ensures t.GoNamed? <==> a.OtherArg?
  {
    match a
    case IntArg(_) => GoInt
    case Int32Arg(_) => GoInt32
    case Uint32Arg(_) => GoUint32
    case StringArg(_) => GoString
    case Uint32ArrayArg(_) => GoUint32Slice
    case OtherArg(name) => GoNamed(name)
  }

  /** The types NewMessage's type switch has a case for. */
  predicate Accepted(t: GoType)
  {
    t.GoInt? || t.GoInt32? || t.GoUint32? || t.GoString? || t.GoUint32Slice?
  }

  /** NewMessage encodes a list of values exactly when each value's type is
      one the switch accepts. */
  lemma {:induction false} EncodeTyped(values: seq<Arg>, types: seq<GoType>)
    requires |values| == |types|
    requires forall i :: 0 <= i < |values| ==> KindOf(values[i]) == types[i]
    ensures Encode(values).Some? <==> forall i :: 0 <= i < |types| ==> Accepted(types[i])
  {
    if Encode(values).Some? {
      forall i | 0 <= i < |types| ensures Accepted(types[i]) {
        assert values[i] in values;
      }
    } else {
      var a :| a in values && a.OtherArg?;
      var i :| 0 <= i < |values| && values[i] == a;
      assert !Accepted(types[i]);
    }
  }

  // ---------------------------------------------------------------------
  // Protocol declarations.

  datatype ArgDecl = ArgDecl(name: string, argType: string, iface: string)

  datatype MethodDecl = MethodDecl(name: string, args: seq<ArgDecl>)

  datatype InterfaceDecl = InterfaceDecl(name: string, requests: seq<MethodDecl>, events: seq<MethodDecl>)

  datatype Param = Param(name: string, goType: GoType)

  // ---------------------------------------------------------------------
  // Requests.

  /** The argument types the request generator handles; any other type is
      reported as unsupported. */
  predicate KnownRequestType(t: string)
  {
    t in {"string", "uint", "int", "enum", "object", "fixed", "fd", "new_id"}
  }

  /** The Go type of a request method's parameter for a plain argument. */
  function ParamType(a: ArgDecl): (t: GoType)
    ensures t.GoNone? <==> a.argType !in {"string", "uint", "int", "enum", "object", "fixed"}
  {
    if a.argType == "string" then GoString
    else if a.argType == "uint" then GoUint32
    else if a.argType == "int" then GoInt32
    else if a.argType == "enum" then GoUint32
    else if a.argType == "object" then GoNamed(PascalName(a.iface))
    else if a.argType == "fixed" then GoNamed("wayland.Fixed")
    else GoNone
  }

  /** As generated: the type of the value passed to NewMessage for a plain
      argument; an object is passed as its `.id`, a fixed value as it is. A
      fixed value thus reaches no case of the type switch. */
  function SentTypeAsWritten(a: ArgDecl): (t: GoType)
    ensures Accepted(t) <==> a.argType in {"string", "uint", "int", "enum", "object"}
  {
    if a.argType == "object" then GoUint32 else ParamType(a)
  }

  /** Corrected: a fixed value is passed as `uint32(x)`, its 32 bits. Every
      plain argument of a known type is then accepted by NewMessage. */
  function SentType(a: ArgDecl): (t: GoType)
    ensures Accepted(t) <==> a.argType in {"string", "uint", "int", "enum", "object", "fixed"}
    ensures a.argType != "fixed" ==> t == SentTypeAsWritten(a)
  {
    if a.argType == "fixed" then GoUint32 else SentTypeAsWritten(a)
  }

  /** What the arguments of a request add to the generated method: its
      parameters, the types it returns (one per new object), the values it
      passes to NewMessage and the descriptors it passes to WithFds. */
  datatype Contribution = Contribution(params: seq<Param>, results: seq<string>,
                                       values: seq<Param>, fds: seq<string>)

  const Empty := Contribution([], [], [], [])

  function Concat(c: Contribution, d: Contribution): Contribution
  {
    Contribution(c.params + d.params, c.results + d.results, c.values + d.values, c.fds + d.fds)
  }

  /** One request argument's contribution, with the corrected rule for a
      fixed value (SentType; the generator itself passes the
      `wayland.Fixed` value, see SentTypeAsWritten). A new_id creates an
      object with the next client id and passes that id; without an
      interface it also takes and passes the interface name and version. A
      descriptor becomes an `int` parameter that goes to WithFds and not to
      NewMessage. */
  function RequestPart(a: ArgDecl): (c: Contribution)
    ensures a.argType == "fd" ==> c.values == [] && c.fds == [CamelName(a.name)]
    ensures a.argType != "fd" ==> c.fds == []
    ensures KnownRequestType(a.argType) ==> forall p :: p in c.values ==> Accepted(p.goType)
  {
    var name := CamelName(a.name);
    if a.argType == "new_id" then
      var id := Param(name + ".id", GoUint32);
      if a.iface == "" then
        Contribution([Param("iface", GoString), Param("version", GoUint32)], [PascalName("Object")],
                     [Param("iface", GoString), Param("version", GoUint32), id], [])
      else
        Contribution([], [PascalName(a.iface)], [id], [])
    else if a.argType == "fd" then
      Contribution([Param(name, GoInt)], [], [], [name])
    else
      var sent := if a.argType == "object" then name + ".id"
                  else if a.argType == "fixed" then "uint32(" + name + ")"
                  else name;
      Contribution([Param(name, ParamType(a))], [], [Param(sent, SentType(a))], [])
  }

  /** The contributions of a request's arguments, in declaration order. */
  function Contributions(args: seq<ArgDecl>): (c: Contribution)
    ensures |c.fds| <= |args| && |c.results| <= |args|
    ensures (forall i :: 0 <= i < |args| ==> args[i].argType != "fd") ==> c.fds == []
    decreases |args|
  {
    if args == [] then Empty
    else Concat(Contributions(args[..|args| - 1]), RequestPart(args[|args| - 1]))
  }

  /** Declaration order is kept: the arguments of `xs + ys` contribute those
      of `xs` followed by those of `ys`. In particular descriptors reach
      WithFds in the order they are declared. */
  lemma {:induction false} ContributionsAppend(xs: seq<ArgDecl>, ys: seq<ArgDecl>)
    ensures Contributions(xs + ys) == Concat(Contributions(xs), Contributions(ys))
    decreases |ys|
  {
    if ys == [] {
      assert xs + ys == xs;
      ConcatEmpty(Contributions(xs));
    } else {
      var init, last := ys[..|ys| - 1], ys[|ys| - 1];
      AppendLast(xs, ys);
      ContributionsAppend(xs, init);
      ConcatAssoc(Contributions(xs), Contributions(init), RequestPart(last));
    }
  }

  lemma ConcatEmpty(c: Contribution)
    ensures Concat(c, Empty) == c
  {
    assert c.params + [] == c.params && c.results + [] == c.results;
    assert c.values + [] == c.values && c.fds + [] == c.fds;
  }

  lemma ConcatAssoc(a: Contribution, b: Contribution, c: Contribution)
    ensures Concat(Concat(a, b), c) == Concat(a, Concat(b, c))
  {
    assert a.params + b.params + c.params == a.params + (b.params + c.params);
    assert a.results + b.results + c.results == a.results + (b.results + c.results);
    assert a.values + b.values + c.values == a.values + (b.values + c.values);
    assert a.fds + b.fds + c.fds == a.fds + (b.fds + c.fds);
  }

  /** For a request whose argument types are all known, every value passed
      to NewMessage has a type its switch accepts. */
  lemma {:induction false} RequestValuesAccepted(args: seq<ArgDecl>)
    requires forall i :: 0 <= i < |args| ==> KnownRequestType(args[i].argType)
    ensures forall p :: p in Contributions(args).values ==> Accepted(p.goType)
    decreases |args|
  {
    if args != [] {
      RequestValuesAccepted(args[..|args| - 1]);
      assert KnownRequestType(args[|args| - 1].argType);
    }
  }

  /** So the message a generated request builds is never nil: values of the
      types its plan passes always encode. */
  lemma RequestEncodes(args: seq<ArgDecl>, values: seq<Arg>)
    requires forall i :: 0 <= i < |args| ==> KnownRequestType(args[i].argType)
    requires |values| == |Contributions(args).values|
    requires forall i :: 0 <= i < |values| ==> KindOf(values[i]) == Contributions(args).values[i].goType
    ensures Encode(values).Some?
  {
    var types := seq(|values|, i requires 0 <= i < |values| => Contributions(args).values[i].goType);
    RequestValuesAccepted(args);
    forall i | 0 <= i < |types| ensures Accepted(types[i]) {
      assert Contributions(args).values[i] in Contributions(args).values;
    }
    EncodeTyped(values, types);
  }

  /** What the generator emits for one request, under the corrected rules. */
  datatype RequestPlan = RequestPlan(name: string, opCode: nat, parts: Contribution)

  /** The generator's loop over a request's arguments, with the corrected
      rule for fixed values. */
  method PlanRequest(request: MethodDecl, opCode: nat) returns (plan: RequestPlan)
    ensures plan == RequestPlan(PascalName(request.name), opCode, Contributions(request.args))
  {
    var args := request.args;
    var params: seq<Param> := [];
    var results: seq<string> := [];
    var values: seq<Param> := [];
    var fds: seq<string> := [];
    for i := 0 to |args|
      invariant Contribution(params, results, values, fds) == Contributions(args[..i])
    {
      var c := RequestArgument(args[i]);
      params, results, values, fds := params + c.params, results + c.results, values + c.values, fds + c.fds;
      assert args[..i + 1][..i] == args[..i];
    }
    assert args[..|args|] == args;
    var methodName := ToPascalCase(request.name);
    plan := RequestPlan(methodName, opCode, Contribution(params, results, values, fds));
  }

  /** One pass of the generator's loop over a request's arguments, with the
      corrected rule for fixed values: what the argument adds to each of the
      method's builders. */
  method RequestArgument(arg: ArgDecl) returns (c: Contribution)
    ensures c == RequestPart(arg)
  {
    var params: seq<Param> := [];
    var results: seq<string> := [];
    var values: seq<Param> := [];
    var fds: seq<string> := [];
    var name := ToCamelCase(arg.name);
    if arg.argType == "new_id" {
      var iface := arg.iface;
      if iface == "" {
        iface := "Object";
        params := params + [Param("iface", GoString), Param("version", GoUint32)];
        values := values + [Param("iface", GoString), Param("version", GoUint32)];
      }
      var typeName := ToPascalCase(iface);
      results := results + [typeName];
      values := values + [Param(name + ".id", GoUint32)];
      return Contribution(params, results, values, fds);
    }
    var goType := GoNone;
    if arg.argType == "string" {
      goType := GoString;
    } else if arg.argType == "uint" {
      goType := GoUint32;
    } else if arg.argType == "int" {
      goType := GoInt32;
    } else if arg.argType == "enum" {
      goType := GoUint32;
    } else if arg.argType == "object" {
      var typeName := ToPascalCase(arg.iface);
      goType := GoNamed(typeName);
    } else if arg.argType == "fixed" {
      goType := GoNamed("wayland.Fixed");
    } else if arg.argType == "fd" {
      params := params + [Param(name, GoInt)];
      fds := fds + [name];
      return Contribution(params, results, values, fds);
    }
    params := params + [Param(name, goType)];
    if arg.argType == "object" {
      values := values + [Param(name + ".id", GoUint32)];
    } else if arg.argType == "fixed" {
      values := values + [Param("uint32(" + name + ")", GoUint32)];
    } else {
      values := values + [Param(name, goType)];
    }
    c := Contribution(params, results, values, fds);
  }

  // ---------------------------------------------------------------------
  // Events.

  /** The Go type of an event listener's parameter. */
  function EventParamType(a: ArgDecl): GoType
  {
    if a.argType == "string" then GoString
    else if a.argType == "uint" then GoUint32
    else if a.argType == "int" || a.argType == "enum" then GoInt32
    else if a.argType == "fixed" then GoNamed("wayland.Fixed")
    else if a.argType == "object" then GoNamed(if a.iface != "" then PascalName(a.iface) else "Object")
    else if a.argType == "fd" then GoInt
    else if a.argType == "array" then GoUint32Slice
    else if a.argType == "new_id" then GoNamed(PascalName(a.iface))
    else GoNone
  }

  /** The event table agrees with the request table except for an enum,
      which an event types as int32 where a request types it as uint32. */
  lemma EventParamTypes(a: ArgDecl)
    ensures EventParamType(a).GoNone?
        <==> a.argType !in {"string", "uint", "int", "enum", "fixed", "object", "fd", "array", "new_id"}
    ensures a.argType in {"string", "uint", "int", "fixed"} ==> EventParamType(a) == ParamType(a)
    ensures a.argType == "object" && a.iface != "" ==> EventParamType(a) == ParamType(a)
    ensures a.argType == "enum" ==> EventParamType(a) == GoInt32 && ParamType(a) == GoUint32
  {
  }

  /** As generated: the reader calls a listener makes for one argument. An
      object is read as a word, a string and a word, and a new_id reads
      nothing (the listener takes a fresh client id instead). */
  function EventReadersAsWritten(argType: string): (rs: seq<Reader>)
    ensures argType == "object" ==> rs == [ReadsUint32, ReadsString, ReadsUint32]
    ensures argType == "new_id" ==> rs == []
  {
    if argType == "string" then [ReadsString]
    else if argType == "uint" then [ReadsUint32]
    else if argType == "int" || argType == "enum" then [ReadsInt32]
    else if argType == "fixed" then [ReadsFixed]
    else if argType == "object" then [ReadsUint32, ReadsString, ReadsUint32]
    else if argType == "fd" then [ReadsFd]
    else if argType == "array" then [ReadsArray]
    else []
  }

  /** Corrected: an object or a new_id is the single word of its id. */
  function EventReaders(argType: string): (rs: seq<Reader>)
    ensures argType in {"string", "uint", "int", "enum", "fixed", "object", "fd", "array", "new_id"} <==> |rs| == 1
    ensures |rs| <= 1
    ensures argType != "object" && argType != "new_id" ==> rs == EventReadersAsWritten(argType)
  {
    if argType == "object" || argType == "new_id" then [ReadsUint32]
    else EventReadersAsWritten(argType)
  }

  /** All readers of an event, argument after argument. */
  function ReadersOf(args: seq<ArgDecl>): (rs: seq<Reader>)
    ensures |rs| <= |args|
    decreases |args|
  {
    if args == [] then [] else EventReaders(args[0].argType) + ReadersOf(args[1..])
  }

  /** As generated: the readers of all arguments, which differ from the
      corrected ReadersOf only where an object or a new_id argument is. */
  function ReadersOfAsWritten(args: seq<ArgDecl>): (rs: seq<Reader>)
    ensures |rs| <= 3 * |args|
    decreases |args|
  {
    if args == [] then [] else EventReadersAsWritten(args[0].argType) + ReadersOfAsWritten(args[1..])
  }

  /** An event whose argument types are all known has one reader per argument. */
  lemma {:induction false} ReadersOfKnown(args: seq<ArgDecl>)
    requires forall i :: 0 <= i < |args| ==> !EventParamType(args[i]).GoNone?
    ensures |ReadersOf(args)| == |args|
    decreases |args|
  {
    if args != [] {
      assert !EventParamType(args[0]).GoNone?;
      assert forall i :: 0 <= i < |args[1..]| ==> args[1..][i] == args[i + 1];
      ReadersOfKnown(args[1..]);
    }
  }

  /** The generated readers and the corrected ones differ only where an
      object or a new_id argument is. */
  lemma {:induction false} AsWrittenAgrees(args: seq<ArgDecl>)
    requires forall i :: 0 <= i < |args| ==> args[i].argType != "object" && args[i].argType != "new_id"
    ensures ReadersOfAsWritten(args) == ReadersOf(args)
    decreases |args|
  {
    if args != [] {
      assert args[0].argType != "object" && args[0].argType != "new_id";
      assert forall i :: 0 <= i < |args[1..]| ==> args[1..][i] == args[i + 1];
      AsWrittenAgrees(args[1..]);
    }
  }

  lemma {:induction false} ReadersOfSnoc(args: seq<ArgDecl>, a: ArgDecl)
    ensures ReadersOf(args + [a]) == ReadersOf(args) + EventReaders(a.argType)
    decreases |args|
  {
    if args == [] {
      assert [a][1..] == [];
    } else {
      assert (args + [a])[1..] == args[1..] + [a];
      ReadersOfSnoc(args[1..], a);
    }
  }

  /** The value a compositor sends for an argument of type `argType`: a
      string, an array, or one 32-bit word. Descriptors travel beside the
      body and are not covered. */
  predicate Carries(argType: string, v: Arg)
  {
    if argType == "string" then v.StringArg?
    else if argType == "array" then v.Uint32ArrayArg?
    else argType in {"uint", "int", "enum", "fixed", "object", "new_id"} && (v.IntArg? || v.Int32Arg? || v.Uint32Arg?)
  }

  lemma {:induction false} ReadersMatch(args: seq<ArgDecl>, values: seq<Arg>)
    requires |args| == |values|
    requires forall i :: 0 <= i < |args| ==> Carries(args[i].argType, values[i])
    ensures AllMatch(ReadersOf(args), values)
    decreases |args|
  {
    if args != [] {
      assert Carries(args[0].argType, values[0]);
      ReadersMatch(args[1..], values[1..]);
      assert ReadersOf(args) == [EventReaders(args[0].argType)[0]] + ReadersOf(args[1..]);
      assert ReadersOf(args)[1..] == ReadersOf(args[1..]);
    }
  }

  /** With the corrected readers, a listener decodes exactly the values the
      compositor encoded for the event's arguments, and reads the whole
      body. */
  lemma EventRoundTrip(args: seq<ArgDecl>, values: seq<Arg>, body: seq<uint8>)
    requires |args| == |values|
    requires forall i :: 0 <= i < |args| ==> Carries(args[i].argType, values[i])
    requires Encode(values) == Some(body) && |body| < MaxBody
    ensures AllMatch(ReadersOf(args), values)
    ensures ReadSequence(body, [], 0, 0, ReadersOf(args)) == Some((ExpectedAll(ReadersOf(args), values), |body|))
  {
    ReadersMatch(args, values);
    assert body[0..|body|] == body;
    DecodeEncoded(ReadersOf(args), values, body, body, [], 0, 0);
  }

  /** What the generator emits for one event, under the corrected rules. */
  datatype EventPlan = EventPlan(name: string, opCode: nat, params: seq<Param>, readers: seq<Reader>)

  /** The generator's loop over an event's arguments, with the corrected
      readers for object and new_id arguments (EventReaders; the generator
      itself calls EventReadersAsWritten). */
  method PlanEvent(event: MethodDecl, opCode: nat) returns (plan: EventPlan)
    ensures plan.name == PascalName(event.name) && plan.opCode == opCode
    ensures |plan.params| == |event.args|
    ensures forall i :: 0 <= i < |event.args| ==>
      plan.params[i] == Param(CamelName(event.args[i].name), EventParamType(event.args[i]))
    ensures plan.readers == ReadersOf(event.args)
  {
    var args := event.args;
    var params: seq<Param> := [];
    var readers: seq<Reader> := [];
    for i := 0 to |args|
      invariant |params| == i
      invariant forall j :: 0 <= j < i ==> params[j] == Param(CamelName(args[j].name), EventParamType(args[j]))
      invariant readers == ReadersOf(args[..i])
    {
      var param, argReaders := EventArgument(args[i]);
      params := params + [param];
      readers := readers + argReaders;
      assert readers == ReadersOf(args[..i + 1]) by {
        ReadersOfSnoc(args[..i], args[i]);
        TakeSnoc(args, i);
      }
    }
    assert args[..|args|] == args;
    var eventName := ToPascalCase(event.name);
    plan := EventPlan(eventName, opCode, params, readers);
  }

  /** One pass of the generator's loop over an event's arguments, with the
      corrected readers: the listener's parameter and the reader calls that
      produce its value. */
  method EventArgument(arg: ArgDecl) returns (param: Param, readers: seq<Reader>)
    ensures param == Param(CamelName(arg.name), EventParamType(arg))
    ensures readers == EventReaders(arg.argType)
  {
    var name := ToCamelCase(arg.name);
    var goType := GoNone;
    readers := [];
    if arg.argType == "string" {
      goType := GoString;
      readers := [ReadsString];
    } else if arg.argType == "uint" {
      goType := GoUint32;
      readers := [ReadsUint32];
    } else if arg.argType == "int" || arg.argType == "enum" {
      goType := GoInt32;
      readers := [ReadsInt32];
    } else if arg.argType == "fixed" {
      goType := GoNamed("wayland.Fixed");
      readers := [ReadsFixed];
    } else if arg.argType == "object" {
      if arg.iface != "" {
        var typeName := ToPascalCase(arg.iface);
        goType := GoNamed(typeName);
      } else {
        goType := GoNamed("Object");
      }
      readers := [ReadsUint32];
    } else if arg.argType == "fd" {
      goType := GoInt;
      readers := [ReadsFd];
    } else if arg.argType == "array" {
      goType := GoUint32Slice;
      readers := [ReadsArray];
    } else if arg.argType == "new_id" {
      var typeName := ToPascalCase(arg.iface);
      goType := GoNamed(typeName);
      readers := [ReadsUint32];
    }
    param := Param(name, goType);
  }

  // ---------------------------------------------------------------------
  // Interfaces.

  /** The generator's loops over an interface, under the corrected rules
      for fixed request arguments and object and new_id event arguments:
      its Go type name, then each request and each event, numbered by its
      position in its list. */
  method GenerateInterface(iface: InterfaceDecl)
    returns (typeName: string, requests: seq<RequestPlan>, events: seq<EventPlan>)
    ensures typeName == PascalName(iface.name)
    ensures |requests| == |iface.requests| && |events| == |iface.events|
    ensures forall i :: 0 <= i < |requests| ==>
      requests[i] == RequestPlan(PascalName(iface.requests[i].name), i, Contributions(iface.requests[i].args))
    ensures forall i :: 0 <= i < |events| ==>
      events[i].opCode == i && events[i].name == PascalName(iface.events[i].name)
      && events[i].readers == ReadersOf(iface.events[i].args)
  {
    typeName := ToPascalCase(iface.name);
    requests := [];
    for opCode := 0 to |iface.requests|
      invariant |requests| == opCode
      invariant forall i :: 0 <= i < opCode ==>
        requests[i] == RequestPlan(PascalName(iface.requests[i].name), i, Contributions(iface.requests[i].args))
    {
      var plan := PlanRequest(iface.requests[opCode], opCode);
      requests := requests + [plan];
    }
    events := [];
    for opCode := 0 to |iface.events|
      invariant |events| == opCode
      invariant forall i :: 0 <= i < opCode ==>
        events[i].opCode == i && events[i].name == PascalName(iface.events[i].name)
        && events[i].readers == ReadersOf(iface.events[i].args)
    {
      var plan := PlanEvent(iface.events[opCode], opCode);
      events := events + [plan];
    }
  }
}
