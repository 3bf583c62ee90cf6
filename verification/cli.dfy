/** The command-line entry point `main` (presuffix.py:643-704) as a
    decision on `sys.argv`: which action runs. The actions themselves
    (registry edits, the dependency check, the console text) are not
    part of this model, except tagging, which is `Renamer.AddPrefix` and
    `Renamer.AddSuffix`. */
module Cli {
  import opened Common
  import opened PyText

  datatype Command =
    | Banner                               // no command: feature list and status
    | Install
    | Uninstall
    | Ocr(source: Option<string>)
    | Prefix(tag: string, file: string)
    | Suffix(tag: string, file: string)
    | DoNothing                            // prefix/suffix with too few arguments
    | ShowUsage                            // any other command

  /** `main`: the command is `argv[1]` lower-cased; `prefix` and `suffix`
      take the tag and the file from `argv[2]` and `argv[3]` and do nothing
      without them; `ocr` takes an optional source file. */
  function Dispatch(argv: seq<string>): (c: Command)
    ensures c == Banner <==> |argv| <= 1
    ensures c == Install <==> |argv| > 1 && Lower(argv[1]) == "install"
    ensures c == Uninstall <==> |argv| > 1 && Lower(argv[1]) == "uninstall"
    ensures c.Ocr? <==> |argv| > 1 && Lower(argv[1]) == "ocr"
    ensures c.Ocr? ==> c.source == if |argv| > 2 then Some(argv[2]) else None
    ensures c.Prefix? <==> |argv| > 3 && Lower(argv[1]) == "prefix"
    ensures c.Suffix? <==> |argv| > 3 && Lower(argv[1]) == "suffix"
    ensures c.Prefix? || c.Suffix? ==> c.tag == argv[2] && c.file == argv[3]
    ensures c == DoNothing <==> 1 < |argv| <= 3 && Lower(argv[1]) in {"prefix", "suffix"}
    ensures c == ShowUsage <==>
      |argv| > 1 && Lower(argv[1]) !in {"install", "uninstall", "ocr", "prefix", "suffix"}
  {
    if |argv| <= 1 then Banner
    else
      var command := Lower(argv[1]);
      if command == "install" then Install
      else if command == "uninstall" then Uninstall
      else if command == "ocr" then Ocr(if |argv| > 2 then Some(argv[2]) else None)
      else if command == "prefix" then (if |argv| > 3 then Prefix(argv[2], argv[3]) else DoNothing)
      else if command == "suffix" then (if |argv| > 3 then Suffix(argv[2], argv[3]) else DoNothing)
      else ShowUsage
  }

  /** The command word is matched without regard to letter case. */
  lemma DispatchIgnoresCase(argv: seq<string>, word: string)
    requires |argv| > 1 && Lower(word) == Lower(argv[1])
    ensures Dispatch(argv[1 := word]) == Dispatch(argv)
  {
  }
}
