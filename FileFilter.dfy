/** The file-level selection rules of the analyzer (`should_include_file` in
    app.py) and the configured pattern sets. Patterns are compared literally:
    `*` is an ordinary character, except that an include pattern also matches
    every name that starts with the text before its first `*`. */
module FileFilter {
  import opened Strings

  /** Names of subdirectories the walk never enters. */
  const EXCLUDE_DIRS: set<string> :=
    {".git", "venv", "node_modules", "__pycache__", "chapter_guidelines", "formatted_notes", "transcripts"}

  const EXCLUDE_FILES: set<string> :=
    {".env", ".DS_Store", "Thumbs.db", "*.log", "*.pyc", "*.pyo", "*.pyd", "pip-log.txt",
     "pip-delete-this-directory.txt"}

  const INCLUDE_FILES: set<string> :=
    {"requirements.txt", "*.py", "*.js", "*.ts", "*.java", "*.cpp", "*.c", "*.h", "*.rb", "*.go", "*.sh",
     "*.bash", "*.html", "*.css", "*.scss", "*.yml", "*.yaml", "*.json", "*.toml", "*.ini", "*.conf",
     "*.md", "*.rst", "README*", "Makefile", "Dockerfile", "docker-compose.yml", "*.bat", "Pipfile",
     "Pipfile.lock", "pyproject.toml", "package.json", "package-lock.json", "Cargo.toml",
     "Cargo.lock", "Gemfile", "Gemfile.lock", "build.gradle", "pom.xml"}

  /** An exclude pattern matches a name it is a suffix of, or equal to. */
  predicate ExcludedBy(name: string, pattern: string) {
    EndsWith(name, pattern) || name == pattern
  }

  /** An include pattern matches a name it is a suffix of, or one that starts
      with the pattern's text before its first `*`. */
  predicate IncludedBy(name: string, pattern: string) {
    EndsWith(name, pattern) || StartsWith(name, BeforeFirstStar(pattern))
  }

  /** The decision `should_include_file` makes: no exclude pattern matches and
      some include pattern does. */
  predicate Admitted(name: string, excludes: set<string>, includes: set<string>) {
    (forall p :: p in excludes ==> !ExcludedBy(name, p))
    && (exists p :: p in includes && IncludedBy(name, p))
  }

  /** The two early-return loops of `should_include_file`, over the pattern sets
      in whatever order the sets are visited. */
  method ShouldIncludeFile(name: string, excludes: set<string>, includes: set<string>) returns (b: bool)
    ensures b == Admitted(name, excludes, includes)
  {
    var rest := excludes;
    while rest != {}
      invariant rest <= excludes
      invariant forall p :: p in excludes && p !in rest ==> !ExcludedBy(name, p)
      decreases rest
    {
      var pattern :| pattern in rest;
      if EndsWith(name, pattern) || name == pattern {
        return false;
      }
      rest := rest - {pattern};
    }
    rest := includes;
    while rest != {}
      invariant rest <= includes
      invariant forall p :: p in includes && p !in rest ==> !IncludedBy(name, p)
      decreases rest
    {
      var pattern :| pattern in rest;
      if EndsWith(name, pattern) || StartsWith(name, BeforeFirstStar(pattern)) {
        return true;
      }
      rest := rest - {pattern};
    }
    return false;
  }

  /** Exclusion takes precedence: a name matched by an exclude pattern is
      rejected whatever the include patterns are. */
  lemma ExcludeWins(name: string, excludes: set<string>, includes: set<string>, p: string)
    requires p in excludes && (EndsWith(name, p) || name == p)
    ensures !Admitted(name, excludes, includes)
  {
  }

  /** A name that no include pattern matches is rejected. */
  lemma DefaultReject(name: string, excludes: set<string>, includes: set<string>)
    requires forall p :: p in includes ==> !IncludedBy(name, p)
    ensures !Admitted(name, excludes, includes)
  {
  }

  /** The equality test is subsumed by the suffix test, so an exclude pattern
      matches exactly the names it is a suffix of. */
  lemma ExcludedBySuffixOnly(name: string, pattern: string)
    ensures ExcludedBy(name, pattern) <==> EndsWith(name, pattern)
  {
  }

  /** With the configured sets, `"*.py"` has the empty text before its star, so
      every name that no exclude pattern matches is included. */
  lemma ConfiguredIncludesAllNotExcluded(name: string)
    ensures Admitted(name, EXCLUDE_FILES, INCLUDE_FILES)
            <==> forall p :: p in EXCLUDE_FILES ==> !EndsWith(name, p)
  {
    assert "*.py" in INCLUDE_FILES;
    assert BeforeFirstStar("*.py") == [];
    assert IncludedBy(name, "*.py");
  }

  /** No configured exclude pattern is a suffix of `name`, pattern by pattern. */
  predicate NoExcludeSuffix(name: string) {
    && !EndsWith(name, ".env") && !EndsWith(name, ".DS_Store") && !EndsWith(name, "Thumbs.db")
    && !EndsWith(name, "*.log") && !EndsWith(name, "*.pyc") && !EndsWith(name, "*.pyo")
    && !EndsWith(name, "*.pyd") && !EndsWith(name, "pip-log.txt")
    && !EndsWith(name, "pip-delete-this-directory.txt")
  }

  lemma NoExcludeSuffixSound(name: string)
    requires NoExcludeSuffix(name)
    ensures forall p :: p in EXCLUDE_FILES ==> !EndsWith(name, p)
  {
  }

  /** `"*.log"` is compared literally, so `"debug.log"` is not excluded by it
      and, under the configured sets, is included. */
  lemma LogPatternIsLiteral()
    ensures !ExcludedBy("debug.log", "*.log")
    ensures Admitted("debug.log", EXCLUDE_FILES, INCLUDE_FILES)
  {
    var name := "debug.log";
    assert name[0] != '*';
    assert !EndsWith(name, "*.log") by { assert name[|name| - 5] != '*'; }
    NoExcludeSuffixSound(name);
    ConfiguredIncludesAllNotExcluded(name);
  }

  /** The transcript's own file name is admitted under the configured sets, so a
      walk that lists it picks it up like any other file. */
  lemma TranscriptFileAdmitted()
    ensures Admitted("repo_transcript.txt", EXCLUDE_FILES, INCLUDE_FILES)
  {
    var name := "repo_transcript.txt";
    NoExcludeSuffixSound(name);
    ConfiguredIncludesAllNotExcluded(name);
  }

  /** The literal comparison also lets compiled Python files through: `"main.pyc"`
      escapes `"*.pyc"` and is then included via `"*.py"`; `".env"` is excluded. */
  lemma ConfiguredExamples()
    ensures Admitted("main.pyc", EXCLUDE_FILES, INCLUDE_FILES)
    ensures !Admitted(".env", EXCLUDE_FILES, INCLUDE_FILES)
  {
    var name := "main.pyc";
    NoExcludeSuffixSound(name);
    ConfiguredIncludesAllNotExcluded(name);
    assert ExcludedBy(".env", ".env");
  }
}
