# Lealone test base: the connection-URL builder

This project models the JDBC connection-URL builder in Lealone's test base
class, `TestBase`. A builder holds:

- a few configuration fields: the storage engine name, the flags `embedded`,
  `inMemory`, `mysqlUrlStyle`, `isReplicaSetMode` and `ssl`, and the host and
  port;
- a parameter map that the caller and `getURL` fill in place.

`getURL(dbName)` works in two steps:

1. It adds the default parameters to the map. `DATABASE_TO_UPPER=false` is
   always added. `user=sa` and `password=` are added only when there is no
   `user` key yet.
2. It concatenates the URL in a fixed order:
   - the prefix;
   - the in-memory marker, if `inMemory` is set;
   - the mode segment: embedded, else replica set, else SSL or TCP with
     `//host:port/`;
   - the database name;
   - the first separator and the storage-engine setting;
   - one `separator key=value` entry per map entry, in the map's
     enumeration order.

A static `url` override, when set, short-circuits all of this. The static
`joinDirs` joins directory names onto the test directory.

The project is split into four files:

- `wrappers.dfy`: the `Option` type. It stands for a Java reference that may
  be `null`.
- `java_int.dfy`: Java's `int`, and its decimal text as `StringBuilder.append(int)`
  and `level + ""` write it. It also holds a reader for that text, which is
  the round-trip partner of the writer.
- `url_spec.dfy`: the specification as values. It defines:
  - the settings record `Config`;
  - the default parameters, `WithDefaults`;
  - the URL, `Url`, for a given enumeration order of the map;
  - the joined path;
  - the lemmas about them: flag priority, separators, order independence,
    idempotence and round trips.
- `test_base.dfy`: the class `TestBase`, with the Java fields as mutable
  fields. It holds:
  - the fluent setters;
  - `getURL` as methods that update the map in place, with the
    `StringBuilder` loop over the map entries;
  - the loop of `joinDirs`.

  Each method is proved against the functions of `url_spec.dfy`.

Some values are defined outside the class and their contents are not visible
here. These are the `Constants.URL_*` markers, `Constants.DEFAULT_HOST`,
`Constants.DEFAULT_TCP_PORT`, `File.separatorChar` and `TraceSystem.INFO`.
They are the fields of the `Externals` record, which a builder receives when
it is created. Every property holds whatever those values are.

`HashMap` iteration order is unspecified. The loop over the map therefore
picks each next key nondeterministically and returns the order it used as a
ghost value. Every property of the URL is stated for any enumeration order.
`SegmentsOrderIndependent` shows that two enumeration orders produce the same
multiset of entries.

## Model

| member | source | states |
|---|---|---|
| JavaInt.IntToString | lealone-test/src/test/java/org/lealone/test/TestBase.java:103 | `level + ""` gives a non-empty string: a leading '-' exactly when the value is negative, and only digits after it, with no leading zero except in "0" itself |
| JavaInt.ParseIntToString | lealone-test/src/test/java/org/lealone/test/TestBase.java:103 | the decimal text of every int reads back as that int; `HostAndPortRoundTrip` uses this to read the port back from `getHostAndPort`'s text |
| UrlSpec.JoinedPathLength | lealone-test/src/test/java/org/lealone/test/TestBase.java:86-91 | the joined path is as long as the base, plus one separator per directory, plus the directories' lengths |
| UrlSpec.JoinedPathConcat | lealone-test/src/test/java/org/lealone/test/TestBase.java:86-91 | joining two lists of directories one after the other gives the same path as joining their concatenation |
| UrlSpec.TestDirIsJoined | lealone-test/src/test/java/org/lealone/test/TestBase.java:40 | `TEST_DIR` is "." joined with "lealone-test-data" and "test" by the platform separator |
| UrlSpec.WithDefaults | lealone-test/src/test/java/org/lealone/test/TestBase.java:177-184 | after the defaults are added: the key set gains `DATABASE_TO_UPPER`, plus `user` and `password` only when `user` was missing; `DATABASE_TO_UPPER` is "false"; an existing `user` keeps its value; a missing one becomes "sa" with an empty password; every other key keeps its value |
| UrlSpec.WithDefaultsIdempotent | lealone-test/src/test/java/org/lealone/test/TestBase.java:177-184 | adding the defaults a second time leaves the map unchanged |
| UrlSpec.CallerCredentialsKept | lealone-test/src/test/java/org/lealone/test/TestBase.java:168-184 | once the caller has put `user` and `password`, the defaults never replace either |
| UrlSpec.Url | lealone-test/src/test/java/org/lealone/test/TestBase.java:186-221 | the URL for a map and one of its enumeration orders begins with the head the settings specify, and is at least two characters longer per map entry (each entry's separator and '=') |
| UrlSpec.EnumerationCountsOnce | lealone-test/src/test/java/org/lealone/test/TestBase.java:218-219 | an enumeration of the map lists every key exactly once and nothing else |
| UrlSpec.SegmentsOrderIndependent | lealone-test/src/test/java/org/lealone/test/TestBase.java:218-219 | two enumeration orders of the same map give the same multiset of `sep key=value` entries |
| UrlSpec.UrlOpening | lealone-test/src/test/java/org/lealone/test/TestBase.java:188-207 | the URL starts with the prefix, then `URL_MEM` exactly when `inMemory` is set, then the marker of the mode the flags select |
| UrlSpec.ModeByPriority | lealone-test/src/test/java/org/lealone/test/TestBase.java:188-207 | the URL starts with everything up to the database name, for each combination of flags: embedded gives `URL_EMBED`, plus `TEST_DIR/` only when not in memory; otherwise replica set gives `URL_RS//127.0.0.1,127.0.0.2,127.0.0.3/`; otherwise `URL_SSL` or `URL_TCP` by `ssl`, then `//host:port/` |
| UrlSpec.EmbeddedWins | lealone-test/src/test/java/org/lealone/test/TestBase.java:192-207 | in embedded mode, the replica-set flag, SSL flag, host and port do not change the URL |
| UrlSpec.ReplicaSetIgnoresTransport | lealone-test/src/test/java/org/lealone/test/TestBase.java:197-206 | in replica-set mode (not embedded), the SSL flag, host and port do not change the URL |
| UrlSpec.SeparatorsAfterLocation | lealone-test/src/test/java/org/lealone/test/TestBase.java:209-219 | right after the database name comes '?' in MySQL style and ';' otherwise, then `default_storage_engine=` and the engine name; the rest is the map's entries, each led by '&' in MySQL style and ';' otherwise |
| UrlSpec.MysqlStyleOnlySwapsSeparators | lealone-test/src/test/java/org/lealone/test/TestBase.java:209-219 | the MySQL-style URL has the same length as the plain one and differs only where ';' became '?' or '&' |
| UrlSpec.RenderIdempotent | lealone-test/src/test/java/org/lealone/test/TestBase.java:174-221 | a second `getURL(dbName)` with no change in between leaves the map as it is and, for the same enumeration order, returns the same URL |
| UrlSpec.HostAndPortRoundTrip | lealone-test/src/test/java/org/lealone/test/TestBase.java:155-157 | splitting `host:port` at its last colon gives back the host and the port, whatever the host contains |
| UrlSpec.DefaultTcpUrl | lealone-test/src/test/java/org/lealone/test/TestBase.java:174-221 | with default settings, host 127.0.0.1, port 5210, database "test" and the three default entries in the order shown, the URL is `URL_PREFIX URL_TCP //127.0.0.1:5210/test;default_storage_engine=MVStore;DATABASE_TO_UPPER=false;user=sa;password=` |
| TestBaseImpl.JoinDirs | lealone-test/src/test/java/org/lealone/test/TestBase.java:86-91 | the loop's path is `TEST_DIR` followed by a separator and each directory, in order |
| TestBaseImpl.AppendEntries | lealone-test/src/test/java/org/lealone/test/TestBase.java:218-219 | the result starts with the text built before the loop, and the loop appends one `sep key=value` entry per map entry, in an order that enumerates every key exactly once |
| TestBaseImpl.RenderMode | lealone-test/src/test/java/org/lealone/test/TestBase.java:192-207 | the branches append exactly the mode segment the flags select |
| TestBaseImpl.TestBase.constructor | lealone-test/src/test/java/org/lealone/test/TestBase.java:75-84 | a new builder has engine "MVStore", every flag false, the default host and TCP port, and an empty map |
| TestBaseImpl.TestBase.AddConnectionParameter | lealone-test/src/test/java/org/lealone/test/TestBase.java:93-96 | the map gains or overwrites exactly that key, and the builder itself is returned |
| TestBaseImpl.TestBase.EnableTraceAt | lealone-test/src/test/java/org/lealone/test/TestBase.java:102-105 | the map's `TRACE_LEVEL_SYSTEM_OUT` becomes the level in decimal, and nothing else changes |
| TestBaseImpl.TestBase.EnableTrace | lealone-test/src/test/java/org/lealone/test/TestBase.java:98-100 | the same, at the level `TraceSystem.INFO` |
| TestBaseImpl.TestBase.EnableSSL | lealone-test/src/test/java/org/lealone/test/TestBase.java:107-110 | only `ssl` changes, to true; the builder itself is returned |
| TestBaseImpl.TestBase.SetStorageEngineName | lealone-test/src/test/java/org/lealone/test/TestBase.java:112-115 | only the storage engine name changes |
| TestBaseImpl.TestBase.SetEmbedded | lealone-test/src/test/java/org/lealone/test/TestBase.java:117-120 | only `embedded` changes |
| TestBaseImpl.TestBase.SetReplicaSetMode | lealone-test/src/test/java/org/lealone/test/TestBase.java:122-125 | only `isReplicaSetMode` changes |
| TestBaseImpl.TestBase.SetInMemory | lealone-test/src/test/java/org/lealone/test/TestBase.java:127-130 | only `inMemory` changes |
| TestBaseImpl.TestBase.SetMysqlUrlStyle | lealone-test/src/test/java/org/lealone/test/TestBase.java:132-135 | only `mysqlUrlStyle` changes |
| TestBaseImpl.TestBase.SetHost | lealone-test/src/test/java/org/lealone/test/TestBase.java:141-144 | only `host` changes |
| TestBaseImpl.TestBase.SetPort | lealone-test/src/test/java/org/lealone/test/TestBase.java:150-153 | only `port` changes |
| TestBaseImpl.TestBase.GetHostAndPort | lealone-test/src/test/java/org/lealone/test/TestBase.java:155-157 | returns `host:port`, from which the host and the port read back |
| TestBaseImpl.TestBase.RenderHead | lealone-test/src/test/java/org/lealone/test/TestBase.java:186-216 | the builder's text before the loop is the head of the URL the current settings specify |
| TestBaseImpl.TestBase.RenderUrl | lealone-test/src/test/java/org/lealone/test/TestBase.java:186-221 | the built string starts with the head the settings specify and is the URL of the current settings and map, for the order in which the loop enumerated the map |
| TestBaseImpl.TestBase.GetUrlFor | lealone-test/src/test/java/org/lealone/test/TestBase.java:174-221 | with the override set, returns it and leaves the map untouched; otherwise the map becomes `WithDefaults` of the old map, and the result is its URL |
| TestBaseImpl.TestBase.GetUrl | lealone-test/src/test/java/org/lealone/test/TestBase.java:164-166 | the same, for the database name "test" |
| TestBaseImpl.TestBase.GetUrlAs | lealone-test/src/test/java/org/lealone/test/TestBase.java:168-172 | afterwards `user` and `password` are exactly the caller's; without the override the map is the defaults added over them, and the result is its URL |

## Left out

- The static initializer (lines 45-57) is left out. It only sets system and configuration properties through foreign calls.
- `initTransactionEngine` (lines 63-73) is left out. It is a lazily initialised singleton around an external transaction engine.
- `getConnection`, in all three overloads (lines 224-234), is left out. It opens a JDBC connection; only the URL it is given is modelled.
- `printURL` and `p` (lines 159-162, 236-242) are left out. They only write to the console.
- The `synchronized` modifiers are not modelled; every operation is sequential.
- `getHost` and `getPort` (lines 137-139, 146-148) are plain field reads, which `Settings()` exposes.
- `getDefaultStorageEngineName` (lines 59-61) is the constant `DefaultStorageEngineName`.
- `DB_NAME` (line 41) is the constant `DbName`.
- The contents of the `Constants.*` values, `File.separatorChar` and `TraceSystem.INFO` are not part of this model. They are fields of `Externals`.
- The static `url` field is modelled as the `staticUrl` parameter of the `GetUrl*` methods, because nothing in the builder assigns it.
- Java `null` strings are not modelled: as a host, key, value, user or password, as the database name of `getURL(dbName)`, as the engine name of `setStorageEngineName`, or as a directory in `joinDirs`' arguments. `StringBuilder` would write each of them as "null".
- `HashMap`'s concrete iteration order is not modelled. The entry loop may enumerate the keys in any order.
- TestBaseImpl.TestBase.GetUrlFor: the ghost `order` it returns is only meaningful without the override. With the override, it is the empty sequence.
