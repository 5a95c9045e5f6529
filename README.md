# IndexServlet, modelled in Dafny

The Angular Material kickstart application serves its single page through one
Java servlet, `IndexServlet`. When the servlet container initialises it,
`init` does two things once and for all:

- It reads the deployed `index.html`. The status starts at 500 and becomes 200
  only when `readAllBytes` returns. Every failure replaces the body with a fixed
  error message, and two of these messages carry the exception's text.
- It walks the init parameters and picks up the two Content-Security-Policy
  strings, matching their names case-insensitively. Each value is normalised by
  `blankToNull`.

Every GET (`doGet`) then replays that frozen state. It always sets the content
type `text/html`, the encoding `utf-8`, the status, the content length and the
body. It sets each policy header only when that policy is present.

Files:

- `java.dfy` (module `Java`): the Java platform behaviour the servlet relies
  on. This covers `null` as `Option`, bytes, `Character.isWhitespace`,
  `String.isBlank`, `String.strip`, `String.equalsIgnoreCase` against an ASCII
  name, and `getBytes(UTF_8)`.
- `servlet.dfy` (module `Servlet`): what the container provides. The outcomes
  of looking up and reading `index.html` are datatypes. The init parameters are
  a name sequence and a value map. The response is a record.
- `index_servlet.dfy` (module `Kickstart`): `blankToNull`, the parameter fold,
  the class `IndexServlet` with its four fields and the methods `Init` and
  `DoGet`, and a client `ServeFirstRequest` for the container's life cycle.

Modelling choices:

- Container I/O is passed in as values. `Init` takes a `ContextLookup` that
  says how `getServletContext`, `getResourceAsStream`, `readAllBytes` and the
  stream closes behave. A thrown exception appears as its `toString()` text.
- `DoGet` does not change the servlet (it has no `modifies` clause). It answers
  by returning the updated response record.
- `DoGet` requires that `init` has run (`bytes` is not `null`). The servlet
  container guarantees this. Without it, the Java code would throw a
  `NullPointerException` when it reads `bytes.length`.
- `Init` folds the parameters starting from the fields' current values, as the
  Java code does. It does not reset `csp` or `cspReportOnly` first. For a newly
  constructed servlet the start is `null`, `null`.
- Java bytes are written as their unsigned values 0..255.

## Model

| member | source | states |
|---|---|---|
| `Kickstart.BlankToNull` | java-src/main/java/dk/wolfsbane/angularmaterialkickstart/IndexServlet.java:55-60 | The result is null exactly when the input is null or blank. Otherwise it is non-empty, neither starts nor ends with whitespace, and has only whitespace around it in the input. |
| `Kickstart.BlankToNullUnique` | java-src/main/java/dk/wolfsbane/angularmaterialkickstart/IndexServlet.java:55-60 | Conversely, any non-empty piece framed by whitespace whose ends are not whitespace is the result, so the contract above determines the stripped value. |
| `Kickstart.BlankToNullIdempotent` | java-src/main/java/dk/wolfsbane/angularmaterialkickstart/IndexServlet.java:55-60 | Applying blankToNull to its own result returns that result unchanged. |
| `Java.StripLeading` | java-src/main/java/dk/wolfsbane/angularmaterialkickstart/IndexServlet.java:59 | The result is a suffix of the input, what it drops is all whitespace, and it does not start with whitespace. |
| `Java.StripTrailing` | java-src/main/java/dk/wolfsbane/angularmaterialkickstart/IndexServlet.java:59 | The result is a prefix of the input, what it drops is all whitespace, and it does not end with whitespace. |
| `Java.Strip` | java-src/main/java/dk/wolfsbane/angularmaterialkickstart/IndexServlet.java:59 | The result is empty exactly when the input is blank. Otherwise its ends are not whitespace, and only whitespace surrounds it in the input. |
| `Java.StripUnique` | java-src/main/java/dk/wolfsbane/angularmaterialkickstart/IndexServlet.java:59 | Stripping whitespace off both sides of a string whose ends are not whitespace gives that string back. |
| `Java.StripIdempotent` | java-src/main/java/dk/wolfsbane/angularmaterialkickstart/IndexServlet.java:59 | Stripping twice is the same as stripping once. |
| `Java.EqualsIgnoreCaseIsJavaRule` | java-src/main/java/dk/wolfsbane/angularmaterialkickstart/IndexServlet.java:47-49 | When the first string is ASCII, the case-insensitive match holds exactly when both strings have the same length and every position passes Java's per-character rule: equal, equal in upper case, or equal in the lower case of the upper case. |
| `Kickstart.PolicyNameMatchIsJava` | java-src/main/java/dk/wolfsbane/angularmaterialkickstart/IndexServlet.java:47-49 | Matching a parameter name against either policy name follows Java's per-character rule for equalsIgnoreCase exactly. |
| `Kickstart.HeaderNamesExclusive` | java-src/main/java/dk/wolfsbane/angularmaterialkickstart/IndexServlet.java:47-49 | No parameter name matches both policy names, so the else-branch never hides a match. |
| `Kickstart.ApplyParameterPolicy` | java-src/main/java/dk/wolfsbane/angularmaterialkickstart/IndexServlet.java:47-51 | One parameter sets only the policy whose name it matches, to blankToNull of its value. It leaves the other policy unchanged, and a non-matching name changes neither. |
| `Kickstart.LastMatchWins` | java-src/main/java/dk/wolfsbane/angularmaterialkickstart/IndexServlet.java:46-52 | After the loop, a policy is blankToNull of the value of the last parameter whose name matches it, ignoring case. A blank or missing value therefore resets it to null. |
| `Kickstart.NoMatchKeepsPolicy` | java-src/main/java/dk/wolfsbane/angularmaterialkickstart/IndexServlet.java:46-52 | If no parameter name matches a policy, the policy keeps its value. |
| `Kickstart.PoliciesIndependent` | java-src/main/java/dk/wolfsbane/angularmaterialkickstart/IndexServlet.java:46-52 | What a policy ends up as depends only on its own starting value, never on the other policy. |
| `Kickstart.InitPathsPartition` | java-src/main/java/dk/wolfsbane/angularmaterialkickstart/IndexServlet.java:23-44 | Each lookup outcome takes exactly one of the paths: null context, context exception, page not deployed, caught read exception, or page served. A caught read exception rules out the other four. When close throws after a full read, the caught exception is the close's. |
| `Kickstart.ErrorBodyLayout` | java-src/main/java/dk/wolfsbane/angularmaterialkickstart/IndexServlet.java:39-43 | An error body with exception text is the message encoded one byte per character, followed by the encoded exception text. |
| `Java.Utf8Char` | java-src/main/java/dk/wolfsbane/angularmaterialkickstart/IndexServlet.java:27-43 | A character encodes to one to four bytes. It encodes to one byte exactly when it is ASCII, and that byte is its code. |
| `Java.Utf8Append` | java-src/main/java/dk/wolfsbane/angularmaterialkickstart/IndexServlet.java:39-43 | Encoding a concatenation is encoding the parts one after the other. |
| `Java.Utf8Length` | java-src/main/java/dk/wolfsbane/angularmaterialkickstart/IndexServlet.java:27-43 | An encoded message has between one and four bytes per character. |
| `Java.Utf8Ascii` | java-src/main/java/dk/wolfsbane/angularmaterialkickstart/IndexServlet.java:27-43 | An ASCII message encodes to exactly its character codes. |
| `Kickstart.PolicyHeaders` | java-src/main/java/dk/wolfsbane/angularmaterialkickstart/IndexServlet.java:73-78 | A policy header is present exactly when its policy is non-null, and it holds exactly that value. No other header is set. |
| `Kickstart.IndexServlet.constructor` | java-src/main/java/dk/wolfsbane/angularmaterialkickstart/IndexServlet.java:14-18 | A new servlet has Java's default field values: null bytes, status 0, null policies. |
| `Kickstart.IndexServlet.Init` | java-src/main/java/dk/wolfsbane/angularmaterialkickstart/IndexServlet.java:21-53 | Status is 200 exactly when readAllBytes returned, and 500 otherwise. The body is the page bytes, or the branch's message with the exception text where there is one. A close failure after a full read keeps 200 but gives the read-error body. The policies are the parameter fold applied to their previous values. |
| `Kickstart.IndexServlet.DoGet` | java-src/main/java/dk/wolfsbane/angularmaterialkickstart/IndexServlet.java:71-83 | Sets content type text/html, encoding utf-8, the policy headers, status equal to the servlet's status, and content length equal to the body length. It writes exactly the body bytes and changes no servlet field. |
| `Kickstart.IndexServlet.GetTwice` | java-src/main/java/dk/wolfsbane/angularmaterialkickstart/IndexServlet.java:71-83 | Two GETs on the same response give identical answers. |
| `Kickstart.ServeFirstRequest` | java-src/main/java/dk/wolfsbane/angularmaterialkickstart/IndexServlet.java:21-83 | For construct, init, then GET: status is 200 exactly when readAllBytes returned, else 500. The body and its length follow the init path. The headers are exactly the policies from the parameters. |

## Left out

- `gulpfile.js`: it only wires file globs to the `gulp-gzip` and `gulp-imagemin` plugins (gzip and image optimisation), with one SVGO option that keeps IDs and defs, and has no logic of its own.
- Servlet container mechanics (`ServletContext`, resource streams, `BufferedInputStream`, output streams, try-with-resources): these become lookup-outcome values and a response record.
- The order in which `getInitParameterNames` enumerates the parameters: the container defines it, and the model takes the names as a given sequence.
- `EqualsIgnoreCase`: exact only when one side is ASCII, which both policy names are. Two non-ASCII letters that differ only in case are not treated as equal.
- `JavaToUpperCase`, `JavaToLowerCase`: written out only for ASCII letters and the four non-ASCII letters (ſ, ı, İ, Kelvin sign) whose case mapping is an ASCII letter. Other characters are left unchanged, so the rule is exact only against an ASCII string.
- Strings are sequences of Unicode scalar values. Java strings are UTF-16 and may hold unpaired surrogates, which `getBytes(UTF_8)` turns into `?`. Such exception texts or parameter values cannot be expressed here, and `Utf8` encodes only well-formed strings.
- `IsWhitespace`: written out for the character set of current Java releases. Changes to Java's Unicode tables are not tracked.
- `DoGet`: exceptions from `getOutputStream` or `write`, and committing or closing the output stream, are not modelled.
- `DoGet`: the container matches header names case-insensitively; the model matches them exactly.
- `Init`: `Error`s such as `OutOfMemoryError` pass through Java's `catch (Exception e)` and end `init`; they are not modelled. An exception's `toString()` is assumed not to throw.
- `Init`: listing and reading the init parameters (IndexServlet.java:46-50) happens outside both `try` blocks, so an exception from `getInitParameterNames()`, its iterator or `getInitParameter` ends `init`, and the container then never calls `doGet`. The model takes the parameters as given, so its `Init` always completes and always folds them; this uncaught path is not modelled. With `GenericServlet` and no `ServletConfig`, `getServletContext()` and `getInitParameterNames()` both throw `IllegalStateException`. That case goes with `ContextThrew`: the "Could not get ServletContext: " body is set at line 43, and `init` then throws at line 46, so the body is never served.
- The commented-out idea of routing 404 errors to the page is not implemented in the source, so it is not modelled.
- Concurrent GETs: they only read fields that are never written after `init`, so the sequential model covers them.
