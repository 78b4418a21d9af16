/**
 * `convertToPdf` of ResourceServiceImpl and StoredFileEventHandler: stage the content in a
 * temporary file, run LibreOffice on it, read the produced PDF, and remove the temporary
 * files whatever happens. The operating system and the external process are an oracle.
 */
module PdfConverter {
  import opened Wrappers
  import opened Domain
  import opened Text

  /**
   * What the operating system and LibreOffice do during one conversion; None stands for the
   * call throwing an IOException (or InterruptedException while waiting).
   */
  datatype ProcessEnv = ProcessEnv(
    tempRoot: string,               // the directory `File.createTempFile` uses
    tempFileToken: Option<string>,  // the random middle part of the temporary file's name
    tempDir: Option<string>,        // `Files.createTempDirectory(null)`
    writeOk: bool,                  // `Files.write` of the content into the temporary file
    exitCode: Option<int>,          // `builder.start()` then `process.waitFor()`
    output: Option<Bytes>,          // `Files.readAllBytes` of the produced PDF
    stdout: seq<string>,            // the lines `readLine` gives on LibreOffice's standard output
    stderr: seq<string>)            // the lines `readLine` gives on its standard error

  /** Mime types that need no conversion: containing "pdf" or starting with "image". */
  predicate SkipsConversion(mimeType: string) {
    Contains(mimeType, "pdf") || StartsWith(mimeType, "image")
  }

  /** `filename.substring(filename.lastIndexOf(".") + 1)`: the whole name when it has no '.'. */
  function Extension(filename: string): (ext: string)
    ensures '.' !in ext
  {
    filename[LastIndexOf(filename, '.') + 1..]
  }

  /** The name `File.createTempFile(id + "-", "." + ext)` gives the staged input. */
  function TempFileName(id: Option<Id>, filename: string, token: string): string {
    IdLabel(id) + "-" + token + "." + Extension(filename)
  }

  function PathOf(dir: string, name: string): string {
    dir + "/" + name
  }

  /** The command line handed to `ProcessBuilder`. */
  function CommandLine(libreOffice: string, outDir: string, input: string): seq<string> {
    [libreOffice, "--convert-to", "pdf", "--outdir", outDir, input]
  }

  /**
   * The content is staged and LibreOffice started: non-empty content of a type that needs
   * conversion, and `createTempFile`, `createTempDirectory` and `Files.write` all succeed.
   */
  predicate Staged(content: Option<Bytes>, mimeType: string, env: ProcessEnv) {
    && content.Some? && |content.value| > 0 && !SkipsConversion(mimeType)
    && env.tempFileToken.Some? && env.tempDir.Some? && env.writeOk
  }

  /**
   * What `convertToPdf` returns: PDF bytes only for non-empty content of a type that needs
   * conversion, when every file operation succeeds and LibreOffice exits with 0.
   */
  function Conversion(content: Option<Bytes>, mimeType: string, env: ProcessEnv): (r: Option<Bytes>)
    ensures r.Some? ==> content.Some? && |content.value| > 0 && !SkipsConversion(mimeType)
    ensures r.Some? ==> env.exitCode == Some(0) && r == env.output
    ensures content.None? || |content.value| == 0 || SkipsConversion(mimeType) ==> r.None?
    ensures env.tempFileToken.None? || env.tempDir.None? || !env.writeOk ==> r.None?
    ensures Staged(content, mimeType, env) && env.exitCode == Some(0) ==> r == env.output
  {
    if content.None? || |content.value| == 0 || SkipsConversion(mimeType) then None
    else if env.tempFileToken.Some? && env.tempDir.Some? && env.writeOk && env.exitCode == Some(0) then env.output
    else None
  }

  /** The log `convertToPdf` builds from a stream on a failed exit: each line followed by a newline. */
  function StreamLog(lines: seq<string>): (log: string)
    ensures |log| >= |lines|
    ensures |lines| > 0 ==> |log| > 0
  {
    if |lines| == 0 then "" else StreamLog(lines[..|lines| - 1]) + lines[|lines| - 1] + "\n"
  }

  /** The log is not empty, but too short to cut its last two characters off: `substring` throws. */
  predicate LogOverflows(lines: seq<string>) {
    var log := StreamLog(lines);
    |log| > 0 && |log| - 2 < 0
  }

  /** The cut of the last two characters fails exactly when the stream was one empty line. */
  lemma LogOverflowsExactly(lines: seq<string>)
    ensures LogOverflows(lines) <==> lines == [""]
  {
    if |lines| == 1 {
      assert lines[..0] == [];
    } else if |lines| > 1 {
      assert |StreamLog(lines[..|lines| - 1])| >= 1;
    }
  }

  /**
   * `convertToPdf` throws StringIndexOutOfBoundsException, which its catch does not take:
   * LibreOffice was started, exited with a non-zero code, and one of its streams, read in
   * turn, overflows the cut.
   */
  predicate ConversionThrows(content: Option<Bytes>, mimeType: string, env: ProcessEnv) {
    && Staged(content, mimeType, env)
    && env.exitCode.Some? && env.exitCode.value != 0
    && (LogOverflows(env.stdout) || LogOverflows(env.stderr))
  }

  /** Drains a stream with `readLine`, appending each line and a newline to the builder. */
  method ReadLog(lines: seq<string>) returns (log: string)
    ensures log == StreamLog(lines)
  {
    log := "";
    var i := 0;
    while i < |lines|
      invariant 0 <= i <= |lines|
      invariant log == StreamLog(lines[..i])
    {
      assert lines[..i + 1][..i] == lines[..i];
      log := log + lines[i];
      log := log + "\n";
      i := i + 1;
    }
    assert lines[..i] == lines;
  }

  /** The staged name ends in "." and an extension, so its PDF is the name with that replaced. */
  lemma StagedNameHasDot(stem: string, ext: string)
    requires '.' !in ext
    ensures var name := stem + "." + ext;
      0 <= LastIndexOf(name, '.') && name[..LastIndexOf(name, '.')] + ".pdf" == ReplaceExtension(name, "pdf")
  {
    LastIndexOfAppend(stem, '.', ext);
    assert stem + "." + ext == stem + ['.'] + ext;
  }

  /**
   * One conversion. Returns the PDF bytes (None for Java's null), the exception that escapes
   * (None when the call returns), the command that was run (None when no process was
   * started), the temporary paths created and the paths the `finally` block deletes.
   */
  method ConvertToPdf(libreOffice: string, id: Option<Id>, filename: string, mimeType: string,
                      content: Option<Bytes>, env: ProcessEnv)
    returns (result: Option<Bytes>, thrown: Option<Error>, command: Option<seq<string>>,
             created: seq<string>, removed: seq<string>)
    ensures result == Conversion(content, mimeType, env)
    ensures thrown.Some? <==> ConversionThrows(content, mimeType, env)
    ensures thrown.Some? ==> thrown.value == StringIndexOutOfBounds && result.None?
    ensures command.Some? <==> Staged(content, mimeType, env)
    ensures command.Some? ==>
      var input := PathOf(env.tempRoot, TempFileName(id, filename, env.tempFileToken.value));
      command.value == CommandLine(libreOffice, env.tempDir.value, input)
    ensures forall p :: p in created ==> p in removed
    ensures command.Some? && env.exitCode == Some(0) ==>
      var name := TempFileName(id, filename, env.tempFileToken.value);
      PathOf(env.tempDir.value, ReplaceExtension(name, "pdf")) in removed
  {
    created, removed, command, thrown := [], [], None, None;
    if content.None? || |content.value| == 0 {
      return None, thrown, command, created, removed;
    }
    var fileContent: Option<Bytes> := content;
    if !Contains(mimeType, "pdf") && !StartsWith(mimeType, "image") {
      var ext := filename[LastIndexOf(filename, '.') + 1..];
      var initialFile: Option<string> := None;
      var tmpDir: Option<string> := None;
      var resultFile: Option<string> := None;
      // try
      if env.tempFileToken.None? {
        fileContent := None;
      } else {
        var name := IdLabel(id) + "-" + env.tempFileToken.value + "." + ext;
        assert name == TempFileName(id, filename, env.tempFileToken.value);
        initialFile := Some(PathOf(env.tempRoot, name));
        created := created + [initialFile.value];
        if env.tempDir.None? {
          fileContent := None;
        } else {
          tmpDir := env.tempDir;
          created := created + [tmpDir.value];
          if !env.writeOk {
            fileContent := None;
          } else {
            var commands: seq<string> := [];
            commands := commands + [libreOffice];
            commands := commands + ["--convert-to"];
            commands := commands + ["pdf"];
            commands := commands + ["--outdir"];
            commands := commands + [tmpDir.value];
            commands := commands + [initialFile.value];
            assert commands == CommandLine(libreOffice, tmpDir.value, initialFile.value);
            command := Some(commands);
            if env.exitCode == Some(0) {
              StagedNameHasDot(IdLabel(id) + "-" + env.tempFileToken.value, ext);
              var targetFile := name[..LastIndexOf(name, '.')];
              resultFile := Some(PathOf(tmpDir.value, targetFile + ".pdf"));
              fileContent := env.output;
            } else if env.exitCode.Some? {
              var log := ReadLog(env.stdout);
              if |log| > 0 && |log| - 2 < 0 {
                thrown := Some(StringIndexOutOfBounds);
              } else {
                log := ReadLog(env.stderr);
                if |log| > 0 && |log| - 2 < 0 {
                  thrown := Some(StringIndexOutOfBounds);
                }
              }
              fileContent := None;
            } else {
              fileContent := None;
            }
          }
        }
      }
      // finally
      if initialFile.Some? {
        removed := removed + [initialFile.value];
      }
      if resultFile.Some? {
        removed := removed + [resultFile.value];
      }
      if tmpDir.Some? {
        removed := removed + [tmpDir.value];
      }
    } else {
      fileContent := None;
    }
    result := fileContent;
  }
}
