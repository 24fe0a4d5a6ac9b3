/** The private field separator of lib/init.js:11 and the `-verbose`
    format string of lib/init.js:66 that makes perlcritic print one record
    per violation. */
module OutputFormat {

  /** The separator between fields of a record. */
  const Sep: string := "~~lpc~~"

  /** `%L:%c` line and column, `%m` brief description, `%e` explanation,
      `%p` policy name, `%s` severity, `%d` full discussion, each followed by
      the separator; the discussion by two, then a newline escape. */
  const VerboseFormat: string :=
    "%L:%c" + Sep + "%m" + Sep + "%e" + Sep + "%p" + Sep + "%s" + Sep + "%d" + Sep + Sep + "\\n"
}
