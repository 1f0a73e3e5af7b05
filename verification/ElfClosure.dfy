/** The ELF dependency closure of the execution tree (cmd/deus-aws-bootstrap/elf_closure_linux.go). */
module ElfClosure {
  import opened Wrappers
  import Text

  /** What is read from one parsed ELF file; the interpreter is empty when there is none. */
  datatype Elf = Elf(interpreter: string, searchPaths: seq<string>, libraries: seq<string>)

  datatype Binding = Binding(path: string, sha256: string)

  const API_VERSION := "security.deus.dev/system-runtime-closure/v1"

  datatype Closure = Closure(apiVersion: string, architecture: string, loaders: seq<Binding>, libraries: seq<Binding>)

  datatype Analysis = Analysis(closure: Closure, dynamicExecutables: seq<string>)

  /** A fixed file system and the path library, as given functions. */
  datatype Machine = Machine(
    evalSymlinks: string -> Option<string>,
    isRegular: string -> bool,
    isElf: string -> Option<bool>,
    parse: string -> Option<Elf>,
    bind: (string, bool) -> Option<string>,
    hwcapsVariants: string -> seq<string>,
    clean: string -> string,
    dir: string -> string,
    join: (string, string) -> string,
    isAbsolute: string -> bool,
    hasSeparator: string -> bool,
    within: (string, string) -> bool,
    defaultPaths: seq<string>,
    architecture: string)

  /** glibc-hwcaps directories are not nested, and only non-empty paths are bound, to SHA-256 digests. */
  ghost predicate IsHost(m: Machine) {
    && (forall v, i :: 0 <= i < |m.hwcapsVariants(v)| ==> m.hwcapsVariants(m.hwcapsVariants(v)[i]) == [])
    && (forall p, e :: m.bind(p, e).Some? ==> p != "" && Text.IsSha256(m.bind(p, e).value))
  }

  type Host = m: Machine | IsHost(m)
    witness Machine(_ => None, _ => false, _ => None, _ => None, (_, _) => None, _ => [], x => x, x => x,
                    (x, _) => x, _ => false, _ => false, (_, _) => false, [], "")

  datatype Failure = Unresolved(name: string) | Unreadable(path: string) | Excessive | Unbound(path: string)

  // ---------------------------------------------------------------- resolution

  function Candidates(h: Machine, name: string, origin: string, search: seq<string>): seq<string> {
    if h.isAbsolute(name) then [name]
    else if h.hasSeparator(name) then [h.join(origin, name)]
    else seq(|search|, i requires 0 <= i < |search| => h.join(search[i], name))
  }

  predicate Usable(h: Machine, candidate: string) {
    h.isRegular(candidate) && h.evalSymlinks(candidate).Some?
  }

  /** The first candidate that is a regular file with a real path. */
  function Resolve(h: Machine, name: string, origin: string, search: seq<string>): Option<string> {
    FirstUsable(h, Candidates(h, name, origin, search))
  }

  function FirstUsable(h: Machine, candidates: seq<string>): Option<string> {
    if candidates == [] then None
    else if Usable(h, candidates[0]) then Some(h.clean(h.evalSymlinks(candidates[0]).value))
    else FirstUsable(h, candidates[1..])
  }

  /** A regular file with a real path, and that path cleaned. */
  ghost predicate IsFileAt(h: Machine, candidate: string, x: string) {
    h.isRegular(candidate) && h.evalSymlinks(candidate).Some? && x == h.clean(h.evalSymlinks(candidate).value)
  }

  /** The first of some candidates that is a file, by position. */
  ghost predicate IsFirstFile(h: Machine, candidates: seq<string>, x: string) {
    exists i :: 0 <= i < |candidates| && IsFileAt(h, candidates[i], x)
      && forall j, y :: 0 <= j < i ==> !IsFileAt(h, candidates[j], y)
  }

  /** Joined to every search directory in turn. */
  ghost predicate IsSearch(h: Machine, name: string, search: seq<string>, candidates: seq<string>) {
    |candidates| == |search| && forall i :: 0 <= i < |search| ==> candidates[i] == h.join(search[i], name)
  }

  lemma {:induction false} FirstUsableIsFirst(h: Machine, candidates: seq<string>, x: string)
    ensures FirstUsable(h, candidates) == Some(x) <==> IsFirstFile(h, candidates, x)
    ensures FirstUsable(h, candidates).None? <==>
              forall i, y :: 0 <= i < |candidates| ==> !IsFileAt(h, candidates[i], y)
  {
    if candidates != [] {
      var rest := candidates[1..];
      FirstUsableIsFirst(h, rest, x);
      var first := h.evalSymlinks(candidates[0]);
      assert Usable(h, candidates[0]) ==> IsFileAt(h, candidates[0], h.clean(first.value));
      assert forall i :: 0 <= i < |rest| ==> rest[i] == candidates[i + 1];
      if !Usable(h, candidates[0]) {
        if IsFirstFile(h, rest, x) {
          var i :| 0 <= i < |rest| && IsFileAt(h, rest[i], x) && forall j, y :: 0 <= j < i ==> !IsFileAt(h, rest[j], y);
          forall j, y | 0 <= j < i + 1
            ensures !IsFileAt(h, candidates[j], y)
          {
            assert j > 0 ==> !IsFileAt(h, rest[j - 1], y);
          }
          assert IsFileAt(h, candidates[i + 1], x);
        }
        if IsFirstFile(h, candidates, x) {
          var i :| 0 <= i < |candidates| && IsFileAt(h, candidates[i], x)
                   && forall j, y :: 0 <= j < i ==> !IsFileAt(h, candidates[j], y);
          assert IsFileAt(h, rest[i - 1], x);
        }
      }
    }
  }

  lemma OnlyCandidate(h: Machine, candidates: seq<string>, x: string)
    requires |candidates| == 1
    ensures IsFirstFile(h, candidates, x) <==> IsFileAt(h, candidates[0], x)
  {
    hide IsFileAt;
  }

  /**
   What a name resolves to: an absolute name only itself, a name with a separator only below the origin, and any other
   the first file of that name along the search path.
   */
  lemma ResolvesToFirst(h: Machine, name: string, origin: string, search: seq<string>, x: string)
    ensures h.isAbsolute(name) ==> (Resolve(h, name, origin, search) == Some(x) <==> IsFileAt(h, name, x))
    ensures !h.isAbsolute(name) && h.hasSeparator(name) ==>
              (Resolve(h, name, origin, search) == Some(x) <==> IsFileAt(h, h.join(origin, name), x))
    ensures !h.isAbsolute(name) && !h.hasSeparator(name) ==>
              forall candidates :: IsSearch(h, name, search, candidates) ==>
                (Resolve(h, name, origin, search) == Some(x) <==> IsFirstFile(h, candidates, x))
                && (Resolve(h, name, origin, search).None? <==>
                      forall i, y :: 0 <= i < |search| ==> !IsFileAt(h, candidates[i], y))
  {
    hide FirstUsable, IsFileAt;
    var candidates := Candidates(h, name, origin, search);
    FirstUsableIsFirst(h, candidates, x);
    if |candidates| == 1 {
      OnlyCandidate(h, candidates, x);
    }
    forall listed | IsSearch(h, name, search, listed) && !h.isAbsolute(name) && !h.hasSeparator(name)
      ensures listed == candidates
    {
    }
  }

  /** A bundled library comes before a system library of the same name that is searched later. */
  lemma BundledComesFirst(h: Machine, name: string, origin: string, bundled: string, system: string)
    requires !h.isAbsolute(name) && !h.hasSeparator(name) && IsFileAt(h, h.join(bundled, name), h.join(bundled, name))
    ensures Resolve(h, name, origin, [bundled, system]) == Some(h.join(bundled, name))
  {
    hide Resolve, IsFileAt;
    var candidates := [h.join(bundled, name), h.join(system, name)];
    assert IsSearch(h, name, [bundled, system], candidates);
    ResolvesToFirst(h, name, origin, [bundled, system], h.join(bundled, name));
    assert IsFileAt(h, candidates[0], h.join(bundled, name));
  }

  method ResolveRuntimeFile(h: Machine, name: string, origin: string, search: seq<string>)
    returns (resolved: Option<string>)
    ensures resolved == Resolve(h, name, origin, search)
  {
    var candidates := [];
    if h.isAbsolute(name) {
      candidates := candidates + [name];
    } else if h.hasSeparator(name) {
      candidates := candidates + [h.join(origin, name)];
    } else {
      for i := 0 to |search|
        invariant candidates == Candidates(h, name, origin, search)[..i]
      {
        candidates := candidates + [h.join(search[i], name)];
      }
    }
    assert candidates == Candidates(h, name, origin, search);
    for i := 0 to |candidates|
      invariant FirstUsable(h, candidates) == FirstUsable(h, candidates[i..])
    {
      assert candidates[i..][0] == candidates[i] && candidates[i..][1..] == candidates[i + 1..];
      if !h.isRegular(candidates[i]) {
        continue;
      }
      var target := h.evalSymlinks(candidates[i]);
      if target.None? {
        continue;
      }
      return Some(h.clean(target.value));
    }
    resolved := None;
  }

  // ---------------------------------------------------------------- dependencies

  /** The interpreter of an ELF file, resolved. */
  ghost predicate IsLoader(h: Machine, file: string, x: string) {
    var elf := h.parse(file);
    elf.Some? && elf.value.interpreter != ""
    && Resolve(h, elf.value.interpreter, h.dir(file), elf.value.searchPaths) == Some(x)
  }

  /** An imported library of an ELF file, resolved. */
  ghost predicate IsLibrary(h: Machine, file: string, x: string) {
    h.parse(file).Some? && ImportedBefore(h, file, |h.parse(file).value.libraries|, x)
  }

  ghost predicate ImportedBefore(h: Machine, file: string, n: nat, x: string)
    requires h.parse(file).Some? && n <= |h.parse(file).value.libraries|
  {
    var elf := h.parse(file).value;
    exists i :: 0 <= i < n && Resolve(h, elf.libraries[i], h.dir(file), elf.searchPaths) == Some(x)
  }

  /** The ELF file a path leads to. */
  ghost predicate LeadsTo(h: Machine, x: string, target: string) {
    h.evalSymlinks(x) == Some(target) && h.isElf(target) == Some(true)
  }

  /** A path that has a real path, of which it can be told whether it is an ELF file. */
  predicate Inspectable(h: Machine, x: string) {
    h.evalSymlinks(x).Some? && h.isElf(h.evalSymlinks(x).value).Some?
  }

  /** A name that resolves to such a path. */
  predicate NameSound(h: Machine, file: string, name: string)
    requires h.parse(file).Some?
  {
    var resolved := Resolve(h, name, h.dir(file), h.parse(file).value.searchPaths);
    resolved.Some? && Inspectable(h, resolved.value)
  }

  /** The first n imports of a parsed file are sound. */
  predicate LibrariesSound(h: Machine, file: string, n: nat)
    requires h.parse(file).Some? && n <= |h.parse(file).value.libraries|
  {
    forall i :: 0 <= i < n ==> NameSound(h, file, h.parse(file).value.libraries[i])
  }

  /** A file that can be parsed, and whose interpreter and imports all resolve. */
  predicate FileSound(h: Machine, file: string) {
    && h.parse(file).Some?
    && (h.parse(file).value.interpreter != "" ==> NameSound(h, file, h.parse(file).value.interpreter))
    && LibrariesSound(h, file, |h.parse(file).value.libraries|)
  }

  ghost predicate Needs(h: Machine, file: string, target: string) {
    exists x :: (IsLoader(h, file, x) || IsLibrary(h, file, x)) && LeadsTo(h, x, target)
  }

  ghost predicate Closed(h: Machine, files: set<string>) {
    forall f, g :: f in files && Needs(h, f, g) ==> g in files
  }

  const OPTIONAL_LIBRARIES :=
    ["libgcc_s.so.1", "libnss_dns.so.2", "libnss_files.so.2", "libnss_systemd.so.2", "libresolv.so.2"]

  /** One of the first n optional libraries, when it resolves. */
  ghost predicate IsOptional(h: Machine, n: nat, x: string)
    requires n <= |OPTIONAL_LIBRARIES|
  {
    exists i :: 0 <= i < n && Resolve(h, OPTIONAL_LIBRARIES[i], "/", h.defaultPaths) == Some(x)
  }

  ghost predicate IsSeed(h: Machine, inputs: seq<string>, target: string) {
    exists x :: (x in inputs || IsOptional(h, |OPTIONAL_LIBRARIES|, x)) && LeadsTo(h, x, target)
  }

  /** The least set of ELF files that contains the seeds and everything its members need. */
  ghost predicate IsClosureOf(h: Machine, inputs: seq<string>, files: set<string>) {
    && (forall f :: IsSeed(h, inputs, f) ==> f in files)
    && Closed(h, files)
    && forall other :: Closed(h, other) && (forall f :: IsSeed(h, inputs, f) ==> f in other) ==> files <= other
  }

  lemma ClosureIsUnique(h: Machine, inputs: seq<string>, a: set<string>, b: set<string>)
    requires IsClosureOf(h, inputs, a) && IsClosureOf(h, inputs, b)
    ensures a == b
  {}

  // ---------------------------------------------------------------- the worklist

  /** Files known so far: all are ELF, the waiting ones in the queue, the others done. */
  ghost predicate Known(h: Machine, queue: seq<string>, queued: set<string>, done: set<string>) {
    && (forall f :: f in queued ==> h.isElf(f) == Some(true))
    && (forall f :: f in queue ==> f in queued)
    && Distinct(queue)
    && (forall f :: f in queued <==> f in done || f in queue)
    && (forall f :: f in done ==> f !in queue)
  }

  /** Nothing is queued that a closed superset of the seeds could do without. */
  ghost predicate Needed(h: Machine, inputs: seq<string>, queued: set<string>) {
    forall other :: Closed(h, other) && (forall f :: IsSeed(h, inputs, f) ==> f in other) ==> queued <= other
  }

  method EnqueueElf(h: Machine, value: string, queueIn: seq<string>, queuedIn: set<string>, ghost done: set<string>)
    returns (ok: bool, queue: seq<string>, queued: set<string>)
    requires Known(h, queueIn, queuedIn, done)
    ensures ok <==> Inspectable(h, value)
    ensures ok ==> Known(h, queue, queued, done)
    ensures ok ==> queuedIn <= queued && |queued| <= |queuedIn| + 1
    ensures ok ==> |queue| + |queuedIn| == |queueIn| + |queued|
    ensures ok ==> forall f :: f in queued <==> f in queuedIn || LeadsTo(h, value, f)
  {
    queue, queued := queueIn, queuedIn;
    var target := h.evalSymlinks(value);
    if target.None? {
      return false, queue, queued;
    }
    if target.value in queued {
      return true, queue, queued;
    }
    var elf := h.isElf(target.value);
    if elf.None? {
      return false, queue, queued;
    }
    if elf.value {
      queued := queued + {target.value};
      queue := queue + [target.value];
    }
    ok := true;
  }

  /** What the loaders, the external files and the dynamic executables are, when the files in `done` are analysed. */
  ghost predicate Collected(h: Machine, ownedRoot: string, done: set<string>,
                            loaders: set<string>, external: set<string>, executables: set<string>) {
    && (forall f :: f in done ==> h.parse(f).Some?)
    && (forall x :: x in loaders <==> exists f :: f in done && IsLoader(h, f, x))
    && (forall x :: x in external <==>
          IsOptional(h, |OPTIONAL_LIBRARIES|, x)
          || (!h.within(ownedRoot, x) && exists f :: f in done && IsLibrary(h, f, x)))
    && (forall f :: f in executables <==> f in done && h.parse(f).value.interpreter != "")
  }

  /** The interpreter and all imports of a parsed file resolve, and what they lead to is queued. */
  ghost predicate Analysed(h: Machine, file: string, queued: set<string>) {
    && h.parse(file).Some?
    && forall g :: Needs(h, file, g) ==> g in queued
  }

  ghost predicate Progress(h: Machine, inputs: seq<string>, ownedRoot: string, queue: seq<string>, queued: set<string>,
                           done: set<string>, loaders: set<string>, external: set<string>, executables: set<string>) {
    && Known(h, queue, queued, done)
    && Needed(h, inputs, queued)
    && (forall f :: IsSeed(h, inputs, f) ==> f in queued)
    && (forall f :: f in done ==> Analysed(h, f, queued))
    && Collected(h, ownedRoot, done, loaders, external, executables)
  }

  /** The imports of a parsed file, one after the other. */
  method EnqueueLibraries(h: Machine, ghost inputs: seq<string>, ownedRoot: string, current: string,
                          queueIn: seq<string>, queuedIn: set<string>, ghost done: set<string>, externalIn: set<string>)
    returns (failure: Option<Failure>, queue: seq<string>, queued: set<string>, external: set<string>)
    requires h.parse(current).Some? && Known(h, queueIn, queuedIn, done) && Needed(h, inputs, queuedIn)
             && current in queuedIn
    ensures failure.None? <==> LibrariesSound(h, current, |h.parse(current).value.libraries|)
    ensures failure.None? ==>
              && Known(h, queue, queued, done) && Needed(h, inputs, queued)
              && |queue| + |queuedIn| == |queueIn| + |queued| && queuedIn <= queued
              && (forall x, g :: IsLibrary(h, current, x) && LeadsTo(h, x, g) ==> g in queued)
              && forall x :: x in external <==> x in externalIn || (!h.within(ownedRoot, x) && IsLibrary(h, current, x))
  {
    hide Resolve, Known, Needed, LeadsTo, Inspectable, NameSound, LibrariesSound, ImportedBefore;
    queue, queued, external := queueIn, queuedIn, externalIn;
    var elf := h.parse(current).value;
    NothingImported(h, current);
    for i := 0 to |elf.libraries|
      invariant Known(h, queue, queued, done)
      invariant Needed(h, inputs, queued)
      invariant |queue| + |queuedIn| == |queueIn| + |queued| && queuedIn <= queued
      invariant forall x, g :: ImportedBefore(h, current, i, x) && LeadsTo(h, x, g) ==> g in queued
      invariant forall x :: x in external <==>
                  x in externalIn || (!h.within(ownedRoot, x) && ImportedBefore(h, current, i, x))
      invariant LibrariesSound(h, current, i)
    {
      var resolved := ResolveRuntimeFile(h, elf.libraries[i], h.dir(current), elf.searchPaths);
      SoundStep(h, current, i);
      if resolved.None? {
        return Some(Unresolved(elf.libraries[i])), queue, queued, external;
      }
      ImportedStep(h, current, i, resolved.value);
      if !h.within(ownedRoot, resolved.value) {
        external := external + {resolved.value};
      }
      ghost var before := queued;
      var ok;
      ok, queue, queued := EnqueueElf(h, resolved.value, queue, queued, done);
      if !ok {
        return Some(Unreadable(resolved.value)), queue, queued, external;
      }
      NeededGrows(h, inputs, current, resolved.value, queuedIn, before, queued);
    }
    failure := None;
  }

  lemma NothingImported(h: Machine, file: string)
    requires h.parse(file).Some?
    ensures LibrariesSound(h, file, 0) && forall x :: !ImportedBefore(h, file, 0, x)
  {}

  lemma SoundStep(h: Machine, file: string, i: nat)
    requires h.parse(file).Some? && i < |h.parse(file).value.libraries|
    ensures var elf := h.parse(file).value;
            var resolved := Resolve(h, elf.libraries[i], h.dir(file), elf.searchPaths);
            && (LibrariesSound(h, file, i + 1) <==>
                  LibrariesSound(h, file, i) && resolved.Some? && Inspectable(h, resolved.value))
            && (LibrariesSound(h, file, |elf.libraries|) ==> LibrariesSound(h, file, i + 1))
  {
    hide Resolve, Inspectable;
    assert LibrariesSound(h, file, i + 1) ==> NameSound(h, file, h.parse(file).value.libraries[i]);
  }

  /** The interpreter, when there is one, is what its name resolves to. */
  lemma AtMostOneLoader(h: Machine, file: string)
    requires h.parse(file).Some?
    ensures var elf := h.parse(file).value;
            var resolved := Resolve(h, elf.interpreter, h.dir(file), elf.searchPaths);
            && (forall x :: IsLoader(h, file, x) <==> elf.interpreter != "" && resolved == Some(x))
            && (NameSound(h, file, elf.interpreter) <==> resolved.Some? && Inspectable(h, resolved.value))
  {}

  /** One turn of the worklist loop: resolve the interpreter and the imports of a file and queue what they lead to. */
  method AnalyseFile(h: Machine, ghost inputs: seq<string>, ownedRoot: string, current: string,
                     queueIn: seq<string>, queuedIn: set<string>, ghost done: set<string>,
                     loadersIn: set<string>, externalIn: set<string>, executablesIn: set<string>)
    returns (failure: Option<Failure>, queue: seq<string>, queued: set<string>,
             loaders: set<string>, external: set<string>, executables: set<string>)
    requires Progress(h, inputs, ownedRoot, [current] + queueIn, queuedIn, done, loadersIn, externalIn, executablesIn)
    ensures failure.None? <==> FileSound(h, current)
    ensures failure.None? ==>
              && Progress(h, inputs, ownedRoot, queue, queued, done + {current}, loaders, external, executables)
              && |queue| + |queuedIn| == |queueIn| + |queued| && queuedIn <= queued
  {
    hide Resolve, Known, Needed, Collected, Analysed, IsSeed, IsLoader, IsLibrary, LeadsTo, Inspectable, NameSound,
         LibrariesSound;
    queue, queued, loaders, external, executables := queueIn, queuedIn, loadersIn, externalIn, executablesIn;
    TakeFirst(h, current, queueIn, queuedIn, done);
    var elf := h.parse(current);
    if elf.None? {
      return Some(Unreadable(current)), queue, queued, loaders, external, executables;
    }
    AtMostOneLoader(h, current);
    if elf.value.interpreter != "" {
      var resolved := ResolveRuntimeFile(h, elf.value.interpreter, h.dir(current), elf.value.searchPaths);
      if resolved.None? {
        return Some(Unresolved(elf.value.interpreter)), queue, queued, loaders, external, executables;
      }
      loaders := loaders + {resolved.value};
      executables := executables + {current};
      var ok;
      ok, queue, queued := EnqueueElf(h, resolved.value, queue, queued, done + {current});
      if !ok {
        return Some(Unreadable(resolved.value)), queue, queued, loaders, external, executables;
      }
      NeededGrows(h, inputs, current, resolved.value, queuedIn, queuedIn, queued);
    }
    failure, queue, queued, external :=
      EnqueueLibraries(h, inputs, ownedRoot, current, queue, queued, done + {current}, external);
    if failure.Some? {
      return;
    }
    FileDone(h, inputs, ownedRoot, current, done, queuedIn, queued, loadersIn, externalIn, executablesIn, loaders,
             external, executables);
  }

  lemma TakeFirst(h: Machine, current: string, queue: seq<string>, queued: set<string>, done: set<string>)
    requires Known(h, [current] + queue, queued, done)
    ensures Known(h, queue, queued, done + {current}) && current !in done && current in queued
  {
    var all := [current] + queue;
    assert all[0] == current && all[1..] == queue;
    assert forall i :: 0 <= i < |queue| ==> queue[i] == all[i + 1] && all[i + 1] != all[0];
    assert forall f :: f in all <==> f == current || f in queue;
  }

  /** What a needed file needs is needed. */
  lemma NeededGrows(h: Machine, inputs: seq<string>, current: string, x: string,
                    start: set<string>, before: set<string>, after: set<string>)
    requires Needed(h, inputs, start) && current in start
    requires Needed(h, inputs, before)
    requires IsLoader(h, current, x) || IsLibrary(h, current, x)
    requires forall f :: f in after <==> f in before || LeadsTo(h, x, f)
    ensures Needed(h, inputs, after)
  {
    forall other | Closed(h, other) && (forall f :: IsSeed(h, inputs, f) ==> f in other)
      ensures after <= other
    {
      assert start <= other && before <= other;
      forall f | LeadsTo(h, x, f)
        ensures f in other
      {
        assert Needs(h, current, f);
      }
    }
  }

  lemma ImportedStep(h: Machine, file: string, i: nat, resolved: string)
    requires h.parse(file).Some? && i < |h.parse(file).value.libraries|
    requires Resolve(h, h.parse(file).value.libraries[i], h.dir(file), h.parse(file).value.searchPaths) ==
               Some(resolved)
    ensures forall x :: ImportedBefore(h, file, i + 1, x) <==> ImportedBefore(h, file, i, x) || x == resolved
    ensures IsLibrary(h, file, resolved)
  {
    var elf := h.parse(file).value;
    forall x
      ensures ImportedBefore(h, file, i + 1, x) <==> ImportedBefore(h, file, i, x) || x == resolved
    {
      assert Resolve(h, elf.libraries[i], h.dir(file), elf.searchPaths) == Some(resolved);
    }
  }

  lemma FileDone(h: Machine, inputs: seq<string>, ownedRoot: string, current: string, done: set<string>,
                 queuedIn: set<string>, queued: set<string>,
                 loadersIn: set<string>, externalIn: set<string>, executablesIn: set<string>,
                 loaders: set<string>, external: set<string>, executables: set<string>)
    requires Collected(h, ownedRoot, done, loadersIn, externalIn, executablesIn) && queuedIn <= queued
    requires forall f :: f in done ==> Analysed(h, f, queuedIn)
    requires h.parse(current).Some?
    requires forall x, g :: IsLoader(h, current, x) && LeadsTo(h, x, g) ==> g in queued
    requires forall x, g :: IsLibrary(h, current, x) && LeadsTo(h, x, g) ==> g in queued
    requires forall x :: x in loaders <==> x in loadersIn || IsLoader(h, current, x)
    requires forall x :: x in external <==> x in externalIn || (!h.within(ownedRoot, x) && IsLibrary(h, current, x))
    requires executables ==
               if h.parse(current).value.interpreter != "" then executablesIn + {current} else executablesIn
    ensures Collected(h, ownedRoot, done + {current}, loaders, external, executables)
    ensures forall f :: f in done + {current} ==> Analysed(h, f, queued)
  {
    hide IsLoader, IsLibrary;
    assert Analysed(h, current, queued);
  }

  // ---------------------------------------------------------------- the analysis

  /** All external files of the analysis, optimised variants included, that are not loaders. */
  ghost predicate IsSystemLibrary(h: Machine, ownedRoot: string, files: set<string>, x: string) {
    !IsSystemLoader(h, ownedRoot, files, x) &&
    (IsExternal(h, ownedRoot, files, x) ||
     exists v ::
       (IsExternal(h, ownedRoot, files, v) || IsSystemLoader(h, ownedRoot, files, v)) && x in h.hwcapsVariants(v))
  }

  ghost predicate IsExternal(h: Machine, ownedRoot: string, files: set<string>, x: string) {
    || IsOptional(h, |OPTIONAL_LIBRARIES|, x)
    || (!h.within(ownedRoot, x) && exists f :: f in files && IsLibrary(h, f, x))
  }

  ghost predicate IsSystemLoader(h: Machine, ownedRoot: string, files: set<string>, x: string) {
    !h.within(ownedRoot, x) && exists f :: f in files && IsLoader(h, f, x)
  }

  function PathOf(b: Binding): string {
    b.path
  }

  /** Exactly the given paths, strictly sorted, each bound to its digest. */
  ghost predicate IsBindingList(h: Machine, bindings: seq<Binding>, executable: bool, paths: set<string>) {
    && Text.StrictlySortedBy(bindings, PathOf)
    && (forall i :: 0 <= i < |bindings| ==>
          bindings[i].path in paths && h.bind(bindings[i].path, executable) == Some(bindings[i].sha256))
    && forall p :: p in paths ==> exists i :: 0 <= i < |bindings| && bindings[i].path == p
  }

  /** The meaning of a successful analysis, in terms of the closure alone. */
  ghost predicate IsAnalysisOf(h: Machine, inputs: seq<string>, ownedRoot: string, analysis: Analysis,
                               files: set<string>, loaders: set<string>, libraries: set<string>) {
    && IsClosureOf(h, inputs, files)
    && (forall f :: f in files ==> h.parse(f).Some?)
    && analysis.closure.apiVersion == API_VERSION && analysis.closure.architecture == h.architecture
    && (forall x :: x in loaders <==> IsSystemLoader(h, ownedRoot, files, x))
    && (forall x :: x in libraries <==> IsSystemLibrary(h, ownedRoot, files, x))
    && IsBindingList(h, analysis.closure.loaders, true, loaders)
    && IsBindingList(h, analysis.closure.libraries, false, libraries)
    && Text.StrictlySorted(analysis.dynamicExecutables)
    && forall f :: f in analysis.dynamicExecutables <==> f in files && h.parse(f).value.interpreter != ""
  }

  const MAX_FILES := 10000
  const MAX_EXTERNAL := 512

  ghost predicate InputsSound(h: Machine, inputs: seq<string>) {
    && (forall x :: x in inputs ==> Inspectable(h, x))
    && (forall x :: IsOptional(h, |OPTIONAL_LIBRARIES|, x) ==> Inspectable(h, x))
  }

  /** The sizes the worklist looks at, if it has anything to do. */
  ghost predicate WithinSizes(h: Machine, ownedRoot: string, files: set<string>) {
    files != {} ==>
      |files| <= MAX_FILES
      && forall some: set<string> :: (forall x :: x in some ==> IsExternal(h, ownedRoot, files, x)) ==>
           |some| <= MAX_EXTERNAL
  }

  ghost predicate SystemFilesBind(h: Machine, ownedRoot: string, files: set<string>) {
    && (forall x :: IsSystemLoader(h, ownedRoot, files, x) ==> h.bind(x, true).Some?)
    && (forall x :: IsSystemLibrary(h, ownedRoot, files, x) ==> h.bind(x, false).Some?)
  }

  /** Nothing about a closure stands in the way of its analysis. */
  ghost predicate IsAnalysable(h: Machine, inputs: seq<string>, ownedRoot: string, files: set<string>) {
    && InputsSound(h, inputs) && (forall f :: f in files ==> FileSound(h, f))
    && WithinSizes(h, ownedRoot, files) && SystemFilesBind(h, ownedRoot, files)
  }

  method EnqueueAll(h: Machine, values: seq<string>, queueIn: seq<string>, queuedIn: set<string>)
    returns (ok: bool, queue: seq<string>, queued: set<string>)
    requires Known(h, queueIn, queuedIn, {})
    ensures ok <==> forall x :: x in values ==> Inspectable(h, x)
    ensures ok ==> Known(h, queue, queued, {})
    ensures ok ==> forall f :: f in queued <==> f in queuedIn || exists x :: x in values && LeadsTo(h, x, f)
    ensures ok ==> |queue| + |queuedIn| == |queueIn| + |queued|
  {
    queue, queued := queueIn, queuedIn;
    for i := 0 to |values|
      invariant Known(h, queue, queued, {})
      invariant forall f :: f in queued <==> f in queuedIn || exists x :: x in values[..i] && LeadsTo(h, x, f)
      invariant |queue| + |queuedIn| == |queueIn| + |queued|
      invariant forall x :: x in values[..i] ==> Inspectable(h, x)
    {
      assert values[i] in values;
      ok, queue, queued := EnqueueElf(h, values[i], queue, queued, {});
      if !ok {
        return;
      }
      assert forall x :: x in values[..i + 1] <==> x in values[..i] || x == values[i];
    }
    assert values[..|values|] == values;
    ok := true;
  }

  /** The optional libraries that resolve are external and queued; those that do not are skipped. */
  method EnqueueOptional(h: Machine, queueIn: seq<string>, queuedIn: set<string>)
    returns (ok: bool, external: set<string>, queue: seq<string>, queued: set<string>)
    requires Known(h, queueIn, queuedIn, {})
    ensures ok <==> forall x :: IsOptional(h, |OPTIONAL_LIBRARIES|, x) ==> Inspectable(h, x)
    ensures ok ==> Known(h, queue, queued, {})
    ensures ok ==> forall x :: x in external <==> IsOptional(h, |OPTIONAL_LIBRARIES|, x)
    ensures ok ==> forall f :: f in queued <==> f in queuedIn || exists x :: x in external && LeadsTo(h, x, f)
    ensures ok ==> |queue| + |queuedIn| == |queueIn| + |queued|
  {
    hide Resolve, IsOptional, Known, LeadsTo, Inspectable;
    external, queue, queued := {}, queueIn, queuedIn;
    NoneOptional(h);
    for i := 0 to |OPTIONAL_LIBRARIES|
      invariant Known(h, queue, queued, {})
      invariant forall x :: x in external <==> IsOptional(h, i, x)
      invariant forall f :: f in queued <==> f in queuedIn || exists x :: x in external && LeadsTo(h, x, f)
      invariant |queue| + |queuedIn| == |queueIn| + |queued|
      invariant forall x :: IsOptional(h, i, x) ==> Inspectable(h, x)
    {
      var optional := ResolveRuntimeFile(h, OPTIONAL_LIBRARIES[i], "/", h.defaultPaths);
      OptionalStep(h, i);
      if optional.None? {
        continue;
      }
      external := external + {optional.value};
      ok, queue, queued := EnqueueElf(h, optional.value, queue, queued, {});
      if !ok {
        StaysOptional(h, i + 1, optional.value);
        return;
      }
    }
    ok := true;
  }

  lemma OptionalStep(h: Machine, i: nat)
    requires i < |OPTIONAL_LIBRARIES|
    ensures forall x :: IsOptional(h, i + 1, x) <==>
              IsOptional(h, i, x) || Resolve(h, OPTIONAL_LIBRARIES[i], "/", h.defaultPaths) == Some(x)
  {
    hide Resolve;
    forall x
      ensures IsOptional(h, i + 1, x) <==>
                IsOptional(h, i, x) || Resolve(h, OPTIONAL_LIBRARIES[i], "/", h.defaultPaths) == Some(x)
    {
      if IsOptional(h, i + 1, x) {
        var k :| 0 <= k < i + 1 && Resolve(h, OPTIONAL_LIBRARIES[k], "/", h.defaultPaths) == Some(x);
        assert k == i || IsOptional(h, i, x);
      }
    }
  }

  lemma StaysOptional(h: Machine, n: nat, x: string)
    requires n <= |OPTIONAL_LIBRARIES| && IsOptional(h, n, x)
    ensures IsOptional(h, |OPTIONAL_LIBRARIES|, x)
  {
    hide Resolve;
  }

  lemma NoneOptional(h: Machine)
    ensures forall x :: !IsOptional(h, 0, x)
  {}

  /** The given paths, each once, bound to its digest. */
  ghost predicate Bound(h: Machine, bindings: seq<Binding>, executable: bool, paths: set<string>) {
    && Text.DistinctBy(bindings, PathOf)
    && (forall i :: 0 <= i < |bindings| ==>
          bindings[i].path in paths && h.bind(bindings[i].path, executable) == Some(bindings[i].sha256))
    && forall p :: p in paths ==> exists i :: 0 <= i < |bindings| && bindings[i].path == p
  }

  lemma NothingBound(h: Machine, executable: bool)
    ensures Bound(h, [], executable, {})
  {}

  lemma BoundStep(h: Machine, bindings: seq<Binding>, binding: Binding, executable: bool, paths: set<string>)
    requires Bound(h, bindings, executable, paths)
    requires binding.path !in paths && h.bind(binding.path, executable) == Some(binding.sha256)
    ensures Bound(h, bindings + [binding], executable, paths + {binding.path})
  {
    var more := bindings + [binding];
    forall p | p in paths + {binding.path}
      ensures exists i :: 0 <= i < |more| && more[i].path == p
    {
      if p in paths {
        var i :| 0 <= i < |bindings| && bindings[i].path == p;
        assert more[i].path == p;
      } else {
        assert more[|bindings|].path == p;
      }
    }
  }

  /** Binding a set of paths, in any order, then sorting. */
  method BindAll(h: Host, paths: set<string>, executable: bool)
    returns (failure: Option<Failure>, bindings: seq<Binding>)
    ensures failure.None? <==> forall p :: p in paths ==> h.bind(p, executable).Some?
    ensures failure.None? ==> IsBindingList(h, bindings, executable, paths)
  {
    hide Bound;
    var left, unsorted := paths, [];
    assert paths - left == {};
    NothingBound(h, executable);
    while left != {}
      invariant left <= paths && Bound(h, unsorted, executable, paths - left)
      invariant forall p :: p in paths && p !in left ==> h.bind(p, executable).Some?
    {
      var value :| value in left;
      var digest := h.bind(value, executable);
      if digest.None? {
        return Some(Unbound(value)), [];
      }
      BoundStep(h, unsorted, Binding(value, digest.value), executable, paths - left);
      assert paths - left + {value} == paths - (left - {value});
      unsorted := unsorted + [Binding(value, digest.value)];
      left := left - {value};
    }
    failure, bindings := None, Text.Sort(unsorted, PathOf);
    assert paths - left == paths;
    SortedBindings(h, unsorted, executable, paths);
  }

  lemma SortedBindings(h: Machine, unsorted: seq<Binding>, executable: bool, paths: set<string>)
    requires Bound(h, unsorted, executable, paths)
    ensures IsBindingList(h, Text.Sort(unsorted, PathOf), executable, paths)
  {
    var sorted := Text.Sort(unsorted, PathOf);
    Text.SortIsStrict(unsorted, PathOf);
    forall i | 0 <= i < |sorted|
      ensures sorted[i].path in paths && h.bind(sorted[i].path, executable) == Some(sorted[i].sha256)
    {
      var a := Text.PositionIn(unsorted, sorted, i);
    }
    forall p | p in paths
      ensures exists i :: 0 <= i < |sorted| && sorted[i].path == p
    {
      var i :| 0 <= i < |unsorted| && unsorted[i].path == p;
      var a := Text.PositionIn(sorted, unsorted, i);
      assert sorted[a].path == p;
    }
  }

  /**
   Extends the entries by their optimised variants while ranging over them. Whether an entry added on the way is
   visited too is left open by the language; as it has no variants of its own, it makes no difference.
   */
  method AddVariants(h: Host, externalIn: set<string>) returns (external: set<string>)
    ensures forall x :: x in external <==> x in externalIn || exists v :: v in externalIn && x in h.hwcapsVariants(v)
  {
    external := externalIn;
    var left := externalIn;
    while left != {}
      invariant externalIn <= external
      invariant forall v :: v in left ==> v in externalIn || h.hwcapsVariants(v) == []
      invariant forall x :: x in external <==>
                  x in externalIn || exists v :: v in externalIn && v !in left && x in h.hwcapsVariants(v)
      decreases left * externalIn, left
    {
      var value :| value in left;
      var variants := h.hwcapsVariants(value);
      var added := (set x | x in variants) - external;
      assert IsHost(h);
      assert forall o :: o in variants ==> h.hwcapsVariants(o) == [];
      var visitedToo: set<string> :| visitedToo <= added;
      ghost var originals := left * externalIn;
      external := external + added;
      left := left - {value} + visitedToo;
      assert value in externalIn ==> left * externalIn == originals - {value};
    }
  }

  /** There is a finite closure, and nothing about it stands in the way. */
  ghost predicate CanBeAnalysed(h: Machine, inputs: seq<string>, ownedRoot: string) {
    exists c :: IsClosureOf(h, inputs, c) && IsAnalysable(h, inputs, ownedRoot, c)
  }

  /** The worklist loop. */
  method RunWorklist(h: Host, inputs: seq<string>, ownedRoot: string, queueIn: seq<string>, queuedIn: set<string>,
                     externalIn: set<string>)
    returns (failure: Option<Failure>, loaders: set<string>, external: set<string>, executables: set<string>,
             ghost files: set<string>)
    requires Progress(h, inputs, ownedRoot, queueIn, queuedIn, {}, {}, externalIn, {}) && |queueIn| == |queuedIn|
    ensures failure.None? ==>
              && IsClosureOf(h, inputs, files) && Collected(h, ownedRoot, files, loaders, external, executables)
              && (forall f :: f in files ==> FileSound(h, f)) && WithinSizes(h, ownedRoot, files)
              && forall f :: f in executables <==> f in files && h.parse(f).Some? && h.parse(f).value.interpreter != ""
    ensures failure.Some? ==> !CanBeAnalysed(h, inputs, ownedRoot)
  {
    hide Known, Needed, Collected, Analysed, Progress, IsClosureOf, FileSound, WithinSizes, CanBeAnalysed;
    var queue, queued := queueIn, queuedIn;
    loaders, external, executables, files := {}, externalIn, {}, {};
    ghost var bound := if |queued| > MAX_FILES then |queued| else MAX_FILES;
    while |queue| > 0
      invariant Progress(h, inputs, ownedRoot, queue, queued, files, loaders, external, executables)
      invariant |queue| + |files| == |queued| <= bound
      invariant forall f :: f in files ==> FileSound(h, f)
      invariant files != {} ==> |queued| <= MAX_FILES && |external| <= MAX_EXTERNAL
      decreases bound - |files|
    {
      var current := queue[0];
      assert queue == [current] + queue[1..];
      HeadIsNew(h, inputs, ownedRoot, queue, queued, files, loaders, external, executables);
      UnsoundFileFails(h, inputs, ownedRoot, queue, queued, files, loaders, external, executables);
      failure, queue, queued, loaders, external, executables :=
        AnalyseFile(h, inputs, ownedRoot, current, queue[1..], queued, files, loaders, external, executables);
      if failure.Some? {
        return;
      }
      files := files + {current};
      if |queued| > MAX_FILES || |external| > MAX_EXTERNAL {
        ExcessFails(h, inputs, ownedRoot, queue, queued, files, loaders, external, executables);
        return Some(Excessive), loaders, external, executables, files;
      }
    }
    End(h, inputs, ownedRoot, queue, queued, files, loaders, external, executables);
    SizesAtEnd(h, inputs, ownedRoot, queue, queued, files, loaders, external, executables);
    failure := None;
  }

  lemma UnsoundFileFails(h: Machine, inputs: seq<string>, ownedRoot: string, queue: seq<string>, queued: set<string>,
                         files: set<string>, loaders: set<string>, external: set<string>, executables: set<string>)
    requires Progress(h, inputs, ownedRoot, queue, queued, files, loaders, external, executables) && |queue| > 0
    ensures !FileSound(h, queue[0]) ==> !CanBeAnalysed(h, inputs, ownedRoot)
  {
    hide Collected, Analysed, IsSeed, FileSound, InputsSound, WithinSizes, SystemFilesBind;
    assert queue[0] in queued;
  }

  lemma ExcessFails(h: Machine, inputs: seq<string>, ownedRoot: string, queue: seq<string>, queued: set<string>,
                    files: set<string>, loaders: set<string>, external: set<string>, executables: set<string>)
    requires Progress(h, inputs, ownedRoot, queue, queued, files, loaders, external, executables)
    requires files != {} && (|queued| > MAX_FILES || |external| > MAX_EXTERNAL)
    ensures !CanBeAnalysed(h, inputs, ownedRoot)
  {
    hide IsSeed, FileSound, InputsSound, SystemFilesBind, IsOptional, IsLibrary, IsLoader, Closed, Analysed;
    forall c | IsClosureOf(h, inputs, c)
      ensures !WithinSizes(h, ownedRoot, c)
    {
      assert queued <= c && files <= queued;
      SubsetSize(queued, c);
      assert forall x :: x in external ==> IsExternal(h, ownedRoot, c, x);
    }
  }

  lemma SubsetSize(a: set<string>, b: set<string>)
    requires a <= b
    ensures |a| <= |b|
  {
    assert b == a + (b - a);
    assert |b| == |a| + |b - a|;
  }

  lemma SizesAtEnd(h: Machine, inputs: seq<string>, ownedRoot: string, queue: seq<string>, queued: set<string>,
                   files: set<string>, loaders: set<string>, external: set<string>, executables: set<string>)
    requires Progress(h, inputs, ownedRoot, queue, queued, files, loaders, external, executables) && |queue| == 0
    requires files != {} ==> |queued| <= MAX_FILES && |external| <= MAX_EXTERNAL
    ensures WithinSizes(h, ownedRoot, files)
  {
    hide IsSeed, IsOptional, IsLibrary, IsLoader, Closed, Analysed, Needed;
    assert files == queued;
    forall some: set<string> | files != {} && forall x :: x in some ==> IsExternal(h, ownedRoot, files, x)
      ensures |some| <= MAX_EXTERNAL
    {
      assert some <= external;
      SubsetSize(some, external);
    }
  }

  /**
   The files analysed are the least set containing the inputs and closed under needed interpreters and imports, and the
   outcome is what that set determines, whatever the order of the worklist and of the maps. The analysis fails exactly
   if something of that set is unreadable, does not resolve, cannot be bound or is over the sizes.
   */
  method AnalyzeElfClosure(h: Host, inputs: seq<string>, ownedRoot: string)
    returns (result: Result<Analysis, Failure>,
             ghost files: set<string>, ghost systemLoaders: set<string>, ghost systemLibraries: set<string>)
    ensures result.Ok? ==> IsAnalysisOf(h, inputs, ownedRoot, result.value, files, systemLoaders, systemLibraries)
    ensures result.Ok? <==> CanBeAnalysed(h, inputs, ownedRoot)
  {
    hide Known, Needed, Collected, Analysed, Progress, IsBindingList, IsClosureOf, IsSeed, IsLoader, IsLibrary,
         IsOptional, IsSystemLoader, IsSystemLibrary, IsExternal, LeadsTo, Text.StrictlySorted, FileSound,
         WithinSizes, Inspectable, InputsSound, SystemFilesBind, CanBeAnalysed;
    files, systemLoaders, systemLibraries := {}, {}, {};
    NothingKnown(h);
    var ok, queue, queued := EnqueueAll(h, inputs, [], {});
    InputsMatter(h, inputs, ownedRoot);
    if !ok {
      return Err(Unreadable("input")), files, systemLoaders, systemLibraries;
    }
    var loaders, executables, external: set<string> := {}, {}, {};
    ok, external, queue, queued := EnqueueOptional(h, queue, queued);
    if !ok {
      return Err(Unreadable("optional library")), files, systemLoaders, systemLibraries;
    }
    Begin(h, inputs, ownedRoot, queue, queued, external);
    var failure;
    failure, loaders, external, executables, files := RunWorklist(h, inputs, ownedRoot, queue, queued, external);
    if failure.Some? {
      return Err(failure.value), files, systemLoaders, systemLibraries;
    }
    ghost var imported := external;
    var systemLoadersFound := set x | x in loaders && !h.within(ownedRoot, x);
    external := AddVariants(h, external + systemLoadersFound);
    var librariesFound := external - systemLoadersFound;
    systemLoaders, systemLibraries := systemLoadersFound, librariesFound;
    SystemFiles(h, inputs, ownedRoot, files, loaders, imported, executables, external);
    BindingMatters(h, inputs, ownedRoot, files, systemLoaders, systemLibraries);
    var loaderBindings;
    failure, loaderBindings := BindAll(h, systemLoadersFound, true);
    if failure.Some? {
      return Err(failure.value), files, systemLoaders, systemLibraries;
    }
    var libraryBindings;
    failure, libraryBindings := BindAll(h, librariesFound, false);
    if failure.Some? {
      return Err(failure.value), files, systemLoaders, systemLibraries;
    }
    var sortedExecutables := SortSet(executables);
    result := Ok(Analysis(Closure(API_VERSION, h.architecture, loaderBindings, libraryBindings), sortedExecutables));
    ParsedIfSound(h, files);
    Analysable(h, inputs, ownedRoot, files);
  }

  lemma Analysable(h: Machine, inputs: seq<string>, ownedRoot: string, files: set<string>)
    requires IsClosureOf(h, inputs, files) && IsAnalysable(h, inputs, ownedRoot, files)
    ensures CanBeAnalysed(h, inputs, ownedRoot)
  {
    hide IsClosureOf, IsAnalysable;
  }

  lemma ParsedIfSound(h: Machine, files: set<string>)
    requires forall f :: f in files ==> FileSound(h, f)
    ensures forall f :: f in files ==> h.parse(f).Some?
  {}

  lemma InputsMatter(h: Machine, inputs: seq<string>, ownedRoot: string)
    ensures !(forall x :: x in inputs ==> Inspectable(h, x)) ==> !CanBeAnalysed(h, inputs, ownedRoot)
    ensures !(forall x :: IsOptional(h, |OPTIONAL_LIBRARIES|, x) ==> Inspectable(h, x)) ==>
              !CanBeAnalysed(h, inputs, ownedRoot)
    ensures ((forall x :: x in inputs ==> Inspectable(h, x))
             && forall x :: IsOptional(h, |OPTIONAL_LIBRARIES|, x) ==> Inspectable(h, x)) ==> InputsSound(h, inputs)
  {
    hide IsOptional, Inspectable, IsClosureOf, FileSound, WithinSizes, SystemFilesBind;
  }

  lemma BindingMatters(h: Machine, inputs: seq<string>, ownedRoot: string, files: set<string>, loaders: set<string>,
                       libraries: set<string>)
    requires IsClosureOf(h, inputs, files)
    requires forall x :: x in loaders <==> IsSystemLoader(h, ownedRoot, files, x)
    requires forall x :: x in libraries <==> IsSystemLibrary(h, ownedRoot, files, x)
    ensures !(forall x :: x in loaders ==> h.bind(x, true).Some?) ==> !CanBeAnalysed(h, inputs, ownedRoot)
    ensures !(forall x :: x in libraries ==> h.bind(x, false).Some?) ==> !CanBeAnalysed(h, inputs, ownedRoot)
    ensures ((forall x :: x in loaders ==> h.bind(x, true).Some?) && forall x :: x in libraries ==>
               h.bind(x, false).Some?) ==>
              SystemFilesBind(h, ownedRoot, files)
  {
    hide IsSystemLoader, IsSystemLibrary, FileSound, InputsSound, WithinSizes, IsClosureOf;
    forall c | IsClosureOf(h, inputs, c)
      ensures c == files
    {
      ClosureIsUnique(h, inputs, c, files);
    }
  }

  method SortSet(values: set<string>) returns (sorted: seq<string>)
    ensures Text.StrictlySorted(sorted) && forall v :: v in sorted <==> v in values
  {
    var left, listed := values, [];
    while left != {}
      invariant left <= values && Distinct(listed)
      invariant forall v :: v in listed <==> v in values && v !in left
    {
      var value :| value in left;
      listed := listed + [value];
      left := left - {value};
    }
    Text.SortedStrings(listed);
    sorted := Text.Sort(listed, x => x);
  }

  lemma NothingKnown(h: Machine)
    ensures Known(h, [], {}, {})
  {}

  lemma Begin(h: Machine, inputs: seq<string>, ownedRoot: string, queue: seq<string>, queued: set<string>,
              external: set<string>)
    requires Known(h, queue, queued, {})
    requires forall x :: x in external <==> IsOptional(h, |OPTIONAL_LIBRARIES|, x)
    requires forall f :: f in queued <==>
               (exists x :: x in inputs && LeadsTo(h, x, f)) || (exists x :: x in external && LeadsTo(h, x, f))
    ensures Progress(h, inputs, ownedRoot, queue, queued, {}, {}, external, {})
  {
    hide IsOptional, LeadsTo, Known;
    assert forall f :: f in queued <==> IsSeed(h, inputs, f);
  }

  lemma HeadIsNew(h: Machine, inputs: seq<string>, ownedRoot: string, queue: seq<string>, queued: set<string>,
                  files: set<string>, loaders: set<string>, external: set<string>, executables: set<string>)
    requires Progress(h, inputs, ownedRoot, queue, queued, files, loaders, external, executables) && |queue| > 0
    ensures queue[0] !in files
  {
    hide Needed, Collected, Analysed, IsSeed;
  }

  /** An empty queue leaves exactly the closure. */
  lemma End(h: Machine, inputs: seq<string>, ownedRoot: string, queue: seq<string>, queued: set<string>,
            files: set<string>, loaders: set<string>, external: set<string>, executables: set<string>)
    requires Progress(h, inputs, ownedRoot, queue, queued, files, loaders, external, executables) && |queue| == 0
    ensures IsClosureOf(h, inputs, files) && Collected(h, ownedRoot, files, loaders, external, executables)
    ensures forall f :: f in files ==> h.parse(f).Some?
    ensures forall f :: f in executables <==> f in files && h.parse(f).Some? && h.parse(f).value.interpreter != ""
  {
    hide IsOptional, IsLoader, IsLibrary, IsSeed;
    assert files == queued;
  }

  lemma SystemFiles(h: Machine, inputs: seq<string>, ownedRoot: string, files: set<string>,
                    loaders: set<string>, imported: set<string>, executables: set<string>, external: set<string>)
    requires Collected(h, ownedRoot, files, loaders, imported, executables)
    requires var systemLoaders := set x | x in loaders && !h.within(ownedRoot, x);
             forall x :: x in external <==>
               x in imported + systemLoaders || exists v :: v in imported + systemLoaders && x in h.hwcapsVariants(v)
    ensures var systemLoaders := set x | x in loaders && !h.within(ownedRoot, x);
            && (forall x :: x in systemLoaders <==> IsSystemLoader(h, ownedRoot, files, x))
            && forall x :: x in external - systemLoaders <==> IsSystemLibrary(h, ownedRoot, files, x)
  {
    hide IsOptional, IsLoader, IsLibrary;
    var systemLoaders := set x | x in loaders && !h.within(ownedRoot, x);
    assert forall x :: x in systemLoaders <==> IsSystemLoader(h, ownedRoot, files, x);
    assert forall x :: x in imported <==> IsExternal(h, ownedRoot, files, x);
  }

  // ---------------------------------------------------------------- determinism and reloading

  lemma {:induction false} BindingListIsUnique(h: Machine, a: seq<Binding>, b: seq<Binding>, executable: bool,
                                               paths: set<string>)
    requires IsBindingList(h, a, executable, paths) && IsBindingList(h, b, executable, paths)
    ensures a == b
  {
    var pathsA := seq(|a|, i requires 0 <= i < |a| => a[i].path);
    var pathsB := seq(|b|, i requires 0 <= i < |b| => b[i].path);
    forall p
      ensures p in pathsA <==> p in paths
      ensures p in pathsB <==> p in paths
    {
      if p in paths {
        var i :| 0 <= i < |a| && a[i].path == p;
        var j :| 0 <= j < |b| && b[j].path == p;
        assert pathsA[i] == p && pathsB[j] == p;
      }
    }
    Text.SortedListingIsUnique(pathsA, pathsB);
    forall i | 0 <= i < |a|
      ensures a[i] == b[i]
    {
      assert pathsA[i] == pathsB[i];
    }
  }

  /** Two successful analyses of the same tree on the same machine agree. */
  lemma AnalysisIsDetermined(h: Machine, inputs: seq<string>, ownedRoot: string,
                             a: Analysis, filesA: set<string>, loadersA: set<string>, librariesA: set<string>,
                             b: Analysis, filesB: set<string>, loadersB: set<string>, librariesB: set<string>)
    requires IsAnalysisOf(h, inputs, ownedRoot, a, filesA, loadersA, librariesA)
    requires IsAnalysisOf(h, inputs, ownedRoot, b, filesB, loadersB, librariesB)
    ensures a == b
  {
    hide IsSystemLoader, IsSystemLibrary, IsBindingList;
    ClosureIsUnique(h, inputs, filesA, filesB);
    assert loadersA == loadersB && librariesA == librariesB;
    BindingListIsUnique(h, a.closure.loaders, b.closure.loaders, true, loadersA);
    BindingListIsUnique(h, a.closure.libraries, b.closure.libraries, false, librariesA);
    Text.SortedListingIsUnique(a.dynamicExecutables, b.dynamicExecutables);
  }

  /** Every resolved dependency outside the owned root is in exactly one of the two lists. */
  lemma DependencyIsBoundOnce(h: Machine, inputs: seq<string>, ownedRoot: string, analysis: Analysis,
                              files: set<string>, loaders: set<string>, libraries: set<string>, f: string, x: string)
    requires IsAnalysisOf(h, inputs, ownedRoot, analysis, files, loaders, libraries)
    requires f in files && (IsLoader(h, f, x) || IsLibrary(h, f, x)) && !h.within(ownedRoot, x)
    ensures var inLoaders := exists i :: 0 <= i < |analysis.closure.loaders| && analysis.closure.loaders[i].path == x;
            var inLibraries :=
              exists i :: 0 <= i < |analysis.closure.libraries| && analysis.closure.libraries[i].path == x;
            inLoaders != inLibraries
  {
    hide IsLoader, IsLibrary;
    assert x in loaders || x in libraries;
  }

  // ---------------------------------------------------------------- what an analysis means

  /** An interpreter or an import of a file, resolved from the file's directory along the file's search path. */
  ghost predicate Uses(h: Machine, file: string, x: string, asInterpreter: bool) {
    h.parse(file).Some? &&
    var elf := h.parse(file).value;
    exists name :: (if asInterpreter then name == elf.interpreter != "" else name in elf.libraries)
      && Resolve(h, name, h.dir(file), elf.searchPaths) == Some(x)
  }

  /** A library of the fixed list that is there. */
  ghost predicate IsListed(h: Machine, x: string) {
    || Resolve(h, "libgcc_s.so.1", "/", h.defaultPaths) == Some(x)
    || Resolve(h, "libnss_dns.so.2", "/", h.defaultPaths) == Some(x)
    || Resolve(h, "libnss_files.so.2", "/", h.defaultPaths) == Some(x)
    || Resolve(h, "libnss_systemd.so.2", "/", h.defaultPaths) == Some(x)
    || Resolve(h, "libresolv.so.2", "/", h.defaultPaths) == Some(x)
  }

  ghost predicate IsBoundIn(bindings: seq<Binding>, x: string) {
    exists i :: 0 <= i < |bindings| && bindings[i].path == x
  }

  lemma UsesAreNeeds(h: Machine, file: string, x: string)
    ensures IsLoader(h, file, x) <==> Uses(h, file, x, true)
    ensures IsLibrary(h, file, x) <==> Uses(h, file, x, false)
  {
    hide Resolve;
    if h.parse(file).Some? {
      var elf := h.parse(file).value;
      forall name | name in elf.libraries && Resolve(h, name, h.dir(file), elf.searchPaths) == Some(x)
        ensures IsLibrary(h, file, x)
      {
        var i :| 0 <= i < |elf.libraries| && elf.libraries[i] == name;
      }
    }
  }

  lemma ListedByPosition(h: Machine, x: string)
    ensures IsOptional(h, |OPTIONAL_LIBRARIES|, x) <==> IsListed(h, x)
  {
    hide Resolve;
    var names := OPTIONAL_LIBRARIES;
    assert |names| == 5 && names[0] == "libgcc_s.so.1" && names[1] == "libnss_dns.so.2"
           && names[2] == "libnss_files.so.2";
    assert names[3] == "libnss_systemd.so.2" && names[4] == "libresolv.so.2";
    forall i | 0 <= i < 5 && Resolve(h, names[i], "/", h.defaultPaths) == Some(x)
      ensures IsListed(h, x)
    {
      assert i == 0 || i == 1 || i == 2 || i == 3 || i == 4;
    }
  }

  /**
   The files of an analysis hold every ELF file that an input, a listed library, or a use by one of them leads to, and
   are contained in every set that does.
   */
  ghost predicate IsLeastUseClosure(h: Machine, inputs: seq<string>, files: set<string>) {
    && HoldsAllUses(h, inputs, files)
    && forall other :: HoldsAllUses(h, inputs, other) ==> files <= other
  }

  /** An input, a listed library, or something a file uses. */
  ghost predicate IsUsed(h: Machine, inputs: seq<string>, files: set<string>, x: string) {
    x in inputs || IsListed(h, x) || exists f, loader :: f in files && Uses(h, f, x, loader)
  }

  ghost predicate HoldsAllUses(h: Machine, inputs: seq<string>, files: set<string>) {
    forall x, target ::
      IsUsed(h, inputs, files, x) && h.evalSymlinks(x) == Some(target) && h.isElf(target) == Some(true) ==>
      target in files
  }

  lemma HoldsUsesIfClosed(h: Machine, inputs: seq<string>, files: set<string>)
    ensures HoldsAllUses(h, inputs, files) <==> Closed(h, files) && forall f :: IsSeed(h, inputs, f) ==> f in files
  {
    hide Uses, IsListed, IsOptional, IsLoader, IsLibrary;
    forall f, x
      ensures IsLoader(h, f, x) <==> Uses(h, f, x, true)
      ensures IsLibrary(h, f, x) <==> Uses(h, f, x, false)
    {
      UsesAreNeeds(h, f, x);
    }
    forall x
      ensures IsOptional(h, |OPTIONAL_LIBRARIES|, x) <==> IsListed(h, x)
    {
      ListedByPosition(h, x);
    }
    if HoldsAllUses(h, inputs, files) {
      forall f, g | f in files && Needs(h, f, g)
        ensures g in files
      {
        var x :| (IsLoader(h, f, x) || IsLibrary(h, f, x)) && LeadsTo(h, x, g);
        assert Uses(h, f, x, IsLoader(h, f, x));
      }
    }
    if Closed(h, files) && forall f :: IsSeed(h, inputs, f) ==> f in files {
      forall x, target | IsUsed(h, inputs, files, x) && h.evalSymlinks(x) == Some(target)
        && h.isElf(target) == Some(true)
        ensures target in files
      {
        assert LeadsTo(h, x, target);
        if f, loader :| f in files && Uses(h, f, x, loader) {
          assert IsLoader(h, f, x) || IsLibrary(h, f, x);
          assert Needs(h, f, target);
        } else {
          assert IsSeed(h, inputs, target);
        }
      }
    }
  }

  /** What is bound, and as what, in terms of what the files use. */
  lemma AnalysisMeans(h: Machine, inputs: seq<string>, ownedRoot: string, analysis: Analysis,
                      files: set<string>, loaders: set<string>, libraries: set<string>)
    requires IsAnalysisOf(h, inputs, ownedRoot, analysis, files, loaders, libraries)
    ensures IsLeastUseClosure(h, inputs, files)
    ensures forall x :: IsBoundIn(analysis.closure.loaders, x) <==>
              !h.within(ownedRoot, x) && exists f :: f in files && Uses(h, f, x, true)
    ensures forall x :: IsBoundIn(analysis.closure.libraries, x) <==>
              !IsBoundIn(analysis.closure.loaders, x)
              && (IsImported(h, ownedRoot, files, x)
                  || exists v :: (IsImported(h, ownedRoot, files, v) || IsBoundIn(analysis.closure.loaders, v))
                                 && x in h.hwcapsVariants(v))
    ensures forall b :: b in analysis.closure.loaders ==> h.bind(b.path, true) == Some(b.sha256)
    ensures forall b :: b in analysis.closure.libraries ==> h.bind(b.path, false) == Some(b.sha256)
    ensures forall f :: f in analysis.dynamicExecutables <==> f in files && h.parse(f).value.interpreter != ""
  {
    hide Uses, IsListed, IsOptional, IsLoader, IsLibrary, Closed, Needs;
    forall other
      ensures HoldsAllUses(h, inputs, other) <==> Closed(h, other) && forall f :: IsSeed(h, inputs, f) ==> f in other
    {
      HoldsUsesIfClosed(h, inputs, other);
    }
    forall f, x
      ensures IsLoader(h, f, x) <==> Uses(h, f, x, true)
      ensures IsLibrary(h, f, x) <==> Uses(h, f, x, false)
    {
      UsesAreNeeds(h, f, x);
    }
    forall x
      ensures IsOptional(h, |OPTIONAL_LIBRARIES|, x) <==> IsListed(h, x)
    {
      ListedByPosition(h, x);
    }
    assert forall x :: IsImported(h, ownedRoot, files, x) <==> IsExternal(h, ownedRoot, files, x);
    assert forall x :: IsBoundIn(analysis.closure.loaders, x) <==> x in loaders;
    assert forall x :: IsBoundIn(analysis.closure.libraries, x) <==> x in libraries;
  }

  /** A listed library, or an import from outside the owned root. */
  ghost predicate IsImported(h: Machine, ownedRoot: string, files: set<string>, x: string) {
    IsListed(h, x) || (!h.within(ownedRoot, x) && exists f :: f in files && Uses(h, f, x, false))
  }

  /** A path that leads to a file of which it can be told whether it is an ELF file. */
  ghost predicate IsReadable(h: Machine, x: string) {
    exists target :: h.evalSymlinks(x) == Some(target) && h.isElf(target).Some?
  }

  ghost predicate IsFound(h: Machine, file: string, elf: Elf, name: string) {
    exists x :: Resolve(h, name, h.dir(file), elf.searchPaths) == Some(x) && IsReadable(h, x)
  }

  /** A file that parses and of which the interpreter and every import are found. */
  ghost predicate HasAllUses(h: Machine, file: string) {
    exists elf :: h.parse(file) == Some(elf)
      && (elf.interpreter != "" ==> IsFound(h, file, elf, elf.interpreter))
      && forall name :: name in elf.libraries ==> IsFound(h, file, elf, name)
  }

  lemma SoundHasAllUses(h: Machine, file: string)
    ensures FileSound(h, file) <==> HasAllUses(h, file)
  {
    hide Resolve;
    forall name
      ensures h.parse(file).Some? ==> (NameSound(h, file, name) <==> IsFound(h, file, h.parse(file).value, name))
    {
      if h.parse(file).Some? {
        var x := Resolve(h, name, h.dir(file), h.parse(file).value.searchPaths);
        if x.Some? {
          ReadableIsInspectable(h, x.value);
        }
      }
    }
    hide NameSound, IsFound;
    if HasAllUses(h, file) {
      forall i | 0 <= i < |h.parse(file).value.libraries|
        ensures NameSound(h, file, h.parse(file).value.libraries[i])
      {
        assert h.parse(file).value.libraries[i] in h.parse(file).value.libraries;
      }
    }
  }

  lemma ReadableIsInspectable(h: Machine, x: string)
    ensures Inspectable(h, x) <==> IsReadable(h, x)
  {}

  /** A size of the worklist: no more than 10000 files, and no more than 512 libraries before the variants are added. */
  ghost predicate HasFewUses(h: Machine, ownedRoot: string, files: set<string>) {
    files == {}
    || (|files| <= 10000 && forall some: set<string> :: AllImported(h, ownedRoot, files, some) ==> |some| <= 512)
  }

  ghost predicate AllImported(h: Machine, ownedRoot: string, files: set<string>, some: set<string>) {
    forall x :: x in some ==> IsImported(h, ownedRoot, files, x)
  }

  /** When the analysis succeeds, for a file system whose use closure is known. */
  lemma AnalysableMeans(h: Machine, inputs: seq<string>, ownedRoot: string, files: set<string>)
    requires IsClosureOf(h, inputs, files)
    ensures CanBeAnalysed(h, inputs, ownedRoot) <==>
              && (forall x :: x in inputs || IsListed(h, x) ==> IsReadable(h, x))
              && (forall f :: f in files ==> HasAllUses(h, f))
              && HasFewUses(h, ownedRoot, files)
              && (forall x :: IsSystemLoader(h, ownedRoot, files, x) ==> h.bind(x, true).Some?)
              && (forall x :: IsSystemLibrary(h, ownedRoot, files, x) ==> h.bind(x, false).Some?)
  {
    hide IsListed, IsReadable, IsOptional, IsClosureOf, HasAllUses, FileSound, Inspectable, IsSystemLoader,
         IsSystemLibrary, IsImported, IsExternal, Uses;
    forall c | IsClosureOf(h, inputs, c)
      ensures c == files
    {
      ClosureIsUnique(h, inputs, c, files);
    }
    forall x
      ensures IsOptional(h, |OPTIONAL_LIBRARIES|, x) <==> IsListed(h, x)
      ensures Inspectable(h, x) <==> IsReadable(h, x)
      ensures IsImported(h, ownedRoot, files, x) <==> IsExternal(h, ownedRoot, files, x)
    {
      ListedByPosition(h, x);
      ReadableIsInspectable(h, x);
      ImportedIsExternal(h, ownedRoot, files, x);
    }
    forall f
      ensures FileSound(h, f) <==> HasAllUses(h, f)
    {
      SoundHasAllUses(h, f);
    }
    SizesByImports(h, ownedRoot, files);
  }

  lemma ImportedIsExternal(h: Machine, ownedRoot: string, files: set<string>, x: string)
    ensures IsImported(h, ownedRoot, files, x) <==> IsExternal(h, ownedRoot, files, x)
  {
    hide IsListed, IsOptional, Uses, IsLibrary;
    ListedByPosition(h, x);
    forall f
      ensures IsLibrary(h, f, x) <==> Uses(h, f, x, false)
    {
      UsesAreNeeds(h, f, x);
    }
  }

  lemma SizesByImports(h: Machine, ownedRoot: string, files: set<string>)
    requires forall x :: IsImported(h, ownedRoot, files, x) <==> IsExternal(h, ownedRoot, files, x)
    ensures WithinSizes(h, ownedRoot, files) <==> HasFewUses(h, ownedRoot, files)
  {
    hide IsImported, IsExternal;
    forall some: set<string>
      ensures AllImported(h, ownedRoot, files, some) <==> forall x :: x in some ==> IsExternal(h, ownedRoot, files, x)
    {
    }
  }

  predicate BindingMatches(h: Machine, b: Binding, executable: bool) {
    Text.IsSha256(b.sha256) && h.bind(b.path, executable) == Some(b.sha256)
  }

  const MAX_LOADERS := 8
  const MAX_LIBRARIES := 512

  /** The sizes a recorded closure may have. */
  predicate HasBoundSizes(closure: Closure) {
    1 <= |closure.loaders| <= MAX_LOADERS && |closure.libraries| <= MAX_LIBRARIES
  }

  /** Every path in one place of one strictly sorted list, with a well-formed and unchanged digest. */
  ghost predicate IsExactAndUnchanged(h: Machine, closure: Closure) {
    && Text.StrictlySortedBy(closure.loaders, PathOf) && Text.StrictlySortedBy(closure.libraries, PathOf)
    && (forall i :: 0 <= i < |closure.loaders| ==>
          closure.loaders[i].path != "" && BindingMatches(h, closure.loaders[i], true))
    && (forall i :: 0 <= i < |closure.libraries| ==>
          closure.libraries[i].path != "" && BindingMatches(h, closure.libraries[i], false))
    && (forall i, j :: 0 <= i < |closure.loaders| && 0 <= j < |closure.libraries| ==>
          closure.loaders[i].path != closure.libraries[j].path)
  }

  /** The recorded closures that are accepted. */
  ghost predicate IsBoundClosure(h: Machine, closure: Closure) {
    && closure.apiVersion == API_VERSION && closure.architecture == h.architecture
    && HasBoundSizes(closure) && IsExactAndUnchanged(h, closure)
  }

  /** Reading a recorded closure back. */
  method LoadBoundClosure(h: Machine, closure: Closure) returns (ok: bool)
    ensures ok <==> IsBoundClosure(h, closure)
  {
    if closure.apiVersion != API_VERSION || closure.architecture != h.architecture {
      return false;
    }
    if |closure.loaders| == 0 || |closure.loaders| > 8 || |closure.libraries| > 512 {
      return false;
    }
    var seen: set<string> := {};
    ok, seen := CheckSorted(h, closure.loaders, true, seen);
    if !ok {
      return;
    }
    ok, seen := CheckSorted(h, closure.libraries, false, seen);
  }

  lemma EmptyIsSorted()
    ensures Text.StrictlySortedBy([], PathOf)
  {}

  lemma DigestIsChecked(h: Machine, b: Binding, executable: bool)
    ensures BindingMatches(h, b, executable) <==>
              Text.IsSha256(b.sha256) && h.bind(b.path, executable) == Some(b.sha256)
  {}

  lemma PrefixStaysSorted(collection: seq<Binding>, n: nat)
    requires n <= |collection| && Text.StrictlySortedBy(collection, PathOf)
    ensures Text.StrictlySortedBy(collection[..n], PathOf)
  {
    forall i, j | 0 <= i < j < n
      ensures Text.Less(PathOf(collection[..n][i]), PathOf(collection[..n][j]))
    {
      assert Text.Less(PathOf(collection[i]), PathOf(collection[j]));
    }
  }

  /** Comparing with the previous path only is enough to keep the whole prefix strictly sorted. */
  lemma OrderCheck(collection: seq<Binding>, i: nat, last: string)
    requires i < |collection| && Text.StrictlySortedBy(collection[..i], PathOf)
    requires last == if i == 0 then "" else collection[i - 1].path
    ensures Text.Less(last, collection[i].path) <==>
            collection[i].path != "" && Text.StrictlySortedBy(collection[..i + 1], PathOf)
    ensures Text.Less(last, collection[i].path) ==> forall k :: 0 <= k < i ==> collection[k].path != collection[i].path
  {
    var p := collection[i].path;
    if i > 0 && Text.Less(last, p) {
      forall k | 0 <= k < i
        ensures Text.Less(collection[k].path, p) && collection[k].path != p
      {
        assert k == i - 1 || Text.Less(PathOf(collection[..i][k]), PathOf(collection[..i][i - 1]));
        if k < i - 1 {
          Text.LessIsTransitive(collection[k].path, last, p);
        }
        Text.LessIsTotal(collection[k].path, p);
      }
    }
    if i > 0 && Text.StrictlySortedBy(collection[..i + 1], PathOf) {
      assert Text.Less(PathOf(collection[..i + 1][i - 1]), PathOf(collection[..i + 1][i]));
    }
  }

  /** One collection of the loop: `last` starts empty again for each. */
  method CheckSorted(h: Machine, collection: seq<Binding>, executable: bool, seenIn: set<string>)
    returns (ok: bool, seen: set<string>)
    ensures ok <==> && Text.StrictlySortedBy(collection, PathOf)
                    && forall i :: 0 <= i < |collection| ==>
                         collection[i].path != "" && collection[i].path !in seenIn
                         && BindingMatches(h, collection[i], executable)
    ensures ok ==> seen == seenIn + set i | 0 <= i < |collection| :: collection[i].path
  {
    hide Text.Less, Text.StrictlySortedBy, BindingMatches;
    seen := seenIn;
    EmptyIsSorted();
    assert collection[..0] == [];
    var last := "";
    for i := 0 to |collection|
      invariant last == if i == 0 then "" else collection[i - 1].path
      invariant Text.StrictlySortedBy(collection[..i], PathOf)
      invariant forall k :: 0 <= k < i ==>
                  collection[k].path != "" && collection[k].path !in seenIn
                  && BindingMatches(h, collection[k], executable)
      invariant seen == seenIn + set k | 0 <= k < i :: collection[k].path
    {
      var expected := collection[i];
      OrderCheck(collection, i, last);
      if !Text.Less(last, expected.path) || expected.path in seen || !Text.IsSha256(expected.sha256) {
        DigestIsChecked(h, expected, executable);
        if Text.StrictlySortedBy(collection, PathOf) {
          PrefixStaysSorted(collection, i + 1);
        }
        return false, seen;
      }
      DigestIsChecked(h, expected, executable);
      if h.bind(expected.path, executable) != Some(expected.sha256) {
        return false, seen;
      }
      seen := seen + {expected.path};
      last := expected.path;
    }
    assert collection[..|collection|] == collection;
    ok := true;
  }

  /**
   A closure just computed is accepted on the same machine exactly if it has between one and eight loaders and no more
   than 512 libraries. The analysis itself does not see to that; what writes the closure down does.
   */
  lemma FreshClosureReloads(h: Host, inputs: seq<string>, ownedRoot: string, analysis: Analysis,
                            files: set<string>, loaders: set<string>, libraries: set<string>)
    requires IsAnalysisOf(h, inputs, ownedRoot, analysis, files, loaders, libraries)
    ensures IsBoundClosure(h, analysis.closure) <==> 1 <= |loaders| <= 8 && |libraries| <= 512
  {
    hide IsClosureOf, IsExactAndUnchanged, IsBindingList;
    FreshIsExact(h, inputs, ownedRoot, analysis, files, loaders, libraries);
    BindingListSize(h, analysis.closure.loaders, true, loaders);
    BindingListSize(h, analysis.closure.libraries, false, libraries);
  }

  /** A closure that passed the size checks of its writers is accepted on the same machine. */
  lemma WrittenClosureReloads(h: Host, inputs: seq<string>, ownedRoot: string, analysis: Analysis,
                              files: set<string>, loaders: set<string>, libraries: set<string>)
    requires IsAnalysisOf(h, inputs, ownedRoot, analysis, files, loaders, libraries) && HasBoundSizes(analysis.closure)
    ensures IsBoundClosure(h, analysis.closure)
  {
    hide IsClosureOf, IsExactAndUnchanged, IsBindingList;
    FreshIsExact(h, inputs, ownedRoot, analysis, files, loaders, libraries);
  }

  lemma FreshIsExact(h: Host, inputs: seq<string>, ownedRoot: string, analysis: Analysis,
                     files: set<string>, loaders: set<string>, libraries: set<string>)
    requires IsAnalysisOf(h, inputs, ownedRoot, analysis, files, loaders, libraries)
    ensures IsExactAndUnchanged(h, analysis.closure)
  {
    assert IsHost(h);
    hide IsSystemLoader, IsClosureOf;
    assert forall x :: x in loaders ==> x !in libraries;
  }

  lemma BindingListSize(h: Machine, bindings: seq<Binding>, executable: bool, paths: set<string>)
    requires IsBindingList(h, bindings, executable, paths)
    ensures |bindings| == |paths|
  {
    var listed := seq(|bindings|, i requires 0 <= i < |bindings| => bindings[i].path);
    forall p
      ensures p in listed <==> p in paths
    {
      if p in paths {
        var i :| 0 <= i < |bindings| && bindings[i].path == p;
        assert listed[i] == p;
      }
    }
    forall i, j | 0 <= i < j < |listed|
      ensures listed[i] != listed[j]
    {
      assert Text.Less(PathOf(bindings[i]), PathOf(bindings[j]));
      Text.LessIsTotal(listed[i], listed[i]);
    }
    DistinctBySize(listed);
    assert (set p | p in listed) == paths;
  }

  // ---------------------------------------------------------------- instances

  function ExampleDigest(): string {
    seq(64, i => '0')
  }

  /** A machine on which some files are all there is, and each is an executable that is its own interpreter. */
  function SelfLoading(files: seq<string>): Machine {
    Machine(p => Some(p), p => p in files, p => Some(p in files), p => Some(Elf(p, [], [])),
            (p, executable) => if p == "" then None else Some(ExampleDigest()),
            p => [], p => p, p => p, (d, p) => p, p => true, p => false, (root, p) => false, [], "arm64")
  }

  function SelfBindings(files: seq<string>): seq<Binding> {
    seq(|files|, i requires 0 <= i < |files| => Binding(files[i], ExampleDigest()))
  }

  function SelfAnalysis(files: seq<string>): Analysis {
    Analysis(Closure(API_VERSION, "arm64", SelfBindings(files), []), files)
  }

  lemma SelfLoadingNeeds(files: seq<string>)
    requires forall f :: f in OPTIONAL_LIBRARIES ==> f !in files
    ensures IsHost(SelfLoading(files))
    ensures forall f, x :: IsLoader(SelfLoading(files), f, x) <==> f != "" && f in files && x == f
    ensures forall f, x :: !IsLibrary(SelfLoading(files), f, x)
    ensures forall x :: !IsOptional(SelfLoading(files), |OPTIONAL_LIBRARIES|, x)
    ensures forall x, f :: LeadsTo(SelfLoading(files), x, f) <==> x == f && f in files
  {
    var h := SelfLoading(files);
    forall name, origin, search
      ensures Resolve(h, name, origin, search) == if name in files then Some(name) else None
    {
      assert Candidates(h, name, origin, search) == [name];
      assert [name][1..] == [] && FirstUsable(h, []) == None;
      assert FirstUsable(h, [name]) == if Usable(h, name) then Some(name) else None;
    }
  }

  lemma SelfLoadingClosure(files: seq<string>)
    requires "" !in files && forall f :: f in OPTIONAL_LIBRARIES ==> f !in files
    ensures IsClosureOf(SelfLoading(files), files, set f | f in files)
  {
    hide SelfLoading, IsLoader, IsLibrary, IsOptional, LeadsTo;
    SelfLoadingNeeds(files);
    var h := SelfLoading(files);
    forall f
      ensures IsSeed(h, files, f) <==> f in files
    {
      if f in files {
        assert LeadsTo(h, f, f);
      }
    }
  }

  /** The analysis of such a machine lists all files as loaders, and is within the sizes for one to eight of them. */
  lemma SelfLoadingReloads(files: seq<string>)
    requires Text.StrictlySorted(files) && "" !in files && forall f :: f in OPTIONAL_LIBRARIES ==> f !in files
    ensures IsAnalysisOf(SelfLoading(files), files, "/owned", SelfAnalysis(files), set f | f in files,
                         set f | f in files, {})
    ensures IsBoundClosure(SelfLoading(files), SelfAnalysis(files).closure) <==> 1 <= |files| <= 8
  {
    hide IsClosureOf, IsLoader, IsLibrary, IsOptional, LeadsTo;
    var h, all := SelfLoading(files), set f | f in files;
    SelfLoadingNeeds(files);
    SelfLoadingClosure(files);
    var bindings := SelfBindings(files);
    forall p | p in all
      ensures exists i :: 0 <= i < |bindings| && bindings[i].path == p
    {
      var i :| 0 <= i < |files| && files[i] == p;
      assert bindings[i].path == p;
    }
    forall i, j | 0 <= i < j < |bindings|
      ensures Text.Less(PathOf(bindings[i]), PathOf(bindings[j]))
    {
      assert Text.Less(files[i], files[j]);
    }
    FreshClosureReloads(h, files, "/owned", SelfAnalysis(files), all, all, {});
    BindingListSize(h, bindings, true, all);
  }
}
