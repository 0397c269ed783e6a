/**
 * The records the projection pipeline passes around (backend/src/projection/types.ts):
 * a course (`Ramo`), a semester of courses, the pending-by-level groups, the
 * progress summary and the projection response that bundles them.
 */
module Model {
  import opened Options

  /** Maximum credits of one planned semester. */
  const MAX_CREDITOS_POR_SEMESTRE: int := 30

  /**
   * The status of a course in a given view. Transcript records carry the first
   * three; `Otro` is any other string that may arrive in the raw data.
   */
  datatype Estado = Aprobado | Reprobado | Inscrito | Pendiente | Proyectado | Otro(raw: string)

  /**
   * A course. An absent `prerequisitos` array is the empty sequence: every
   * reader of that field writes `prerequisitos || []`.
   */
  datatype Ramo = Ramo(
    codigo: string,
    nombre: string,
    estado: Estado,
    creditos: int,
    nivel: int,
    prerequisitos: seq<string>)

  /**
   * A curriculum entry as the external API serves it (both `MallaItem`
   * interfaces); `prereq` is a comma-separated code list and may be absent.
   */
  datatype MallaItem = MallaItem(codigo: string, asignatura: string, creditos: int, nivel: int, prereq: Option<string>)

  /**
   * A transcript record with its course name, as the avance endpoint returns
   * it and the frontend reads it (`Curso`); `period` is a six-digit code.
   */
  datatype Curso = Curso(course: string, nombre: string, status: Estado, period: string, nrc: string)

  /** A degree programme of the student: code, name and catalogue ("YYYYSS"). */
  datatype Carrera = Carrera(codigo: string, nombre: string, catalogo: string)

  /** The credits of a list of curriculum entries: `reduce((acc, m) => acc + m.creditos, 0)`. */
  function SumCreditos(malla: seq<MallaItem>): int {
    if malla == [] then 0 else malla[0].creditos + SumCreditos(malla[1..])
  }

  lemma {:induction false} SumCreditosAppend(a: seq<MallaItem>, b: seq<MallaItem>)
    ensures SumCreditos(a + b) == SumCreditos(a) + SumCreditos(b)
  {
    if a == [] {
      assert a + b == b;
    } else {
      assert (a + b)[1..] == a[1..] + b;
      SumCreditosAppend(a[1..], b);
    }
  }

  /** A semester, historical or planned; `periodo` is a "YYYY-T" label. */
  datatype Semestre = Semestre(periodo: string, ramos: seq<Ramo>)

  /** The curriculum courses of one level that have no transcript record. */
  datatype PendienteGrupo = PendienteGrupo(nivel: int, ramos: seq<Ramo>)

  /** `porcentaje` is the approved share of credits in percent, rounded to a tenth. */
  datatype Resumen = Resumen(creditosTotales: int, creditosAprobados: int, porcentaje: real)

  /** Both `RawProjectionResponse` (the input of the scheduler) and its output. */
  datatype ProjectionResponse = ProjectionResponse(
    resumen: Resumen,
    semestres: seq<Semestre>,
    pendientes: seq<PendienteGrupo>)

  /** Sum of the credits of a list of courses. */
  function Creditos(rs: seq<Ramo>): int {
    if rs == [] then 0 else rs[0].creditos + Creditos(rs[1..])
  }

  lemma {:induction false} CreditosAppend(a: seq<Ramo>, b: seq<Ramo>)
    ensures Creditos(a + b) == Creditos(a) + Creditos(b)
  {
    if a != [] {
      assert (a + b)[1..] == a[1..] + b;
      CreditosAppend(a[1..], b);
    } else {
      assert a + b == b;
    }
  }

  /** The codes of a list of courses, in order. */
  function Codes(rs: seq<Ramo>): (cs: seq<string>)
    ensures |cs| == |rs|
    ensures forall i | 0 <= i < |rs| :: cs[i] == rs[i].codigo
  {
    seq(|rs|, i requires 0 <= i < |rs| => rs[i].codigo)
  }

  /** No two courses of the list share a code. */
  predicate DistinctCodes(rs: seq<Ramo>) {
    forall i, j | 0 <= i < j < |rs| :: rs[i].codigo != rs[j].codigo
  }

  /** All course records of a list of semesters, semester by semester. */
  function SemRamos(ss: seq<Semestre>): seq<Ramo> {
    if ss == [] then [] else ss[0].ramos + SemRamos(ss[1..])
  }

  /** All courses of the pending-by-level groups, group by group. */
  function GroupRamos(gs: seq<PendienteGrupo>): seq<Ramo> {
    if gs == [] then [] else gs[0].ramos + GroupRamos(gs[1..])
  }

  /** The planned copy of a course: same definition, estado PROYECTADO. */
  function Proyectar(r: Ramo): (p: Ramo)
    ensures p.estado == Proyectado
    ensures p.codigo == r.codigo && p.creditos == r.creditos && p.nivel == r.nivel
  {
    r.(estado := Proyectado)
  }

  /** `tomadosEsteSemestre.map(...)`: the planned copies of a semester's courses. */
  function ProyectarAll(rs: seq<Ramo>): (ps: seq<Ramo>)
    ensures |ps| == |rs|
    ensures forall i | 0 <= i < |rs| :: ps[i] == Proyectar(rs[i])
  {
    seq(|rs|, i requires 0 <= i < |rs| => Proyectar(rs[i]))
  }

  /** Projecting a semester changes neither its credit total nor its codes. */
  lemma {:induction false} ProyectarAllKeeps(rs: seq<Ramo>)
    ensures Creditos(ProyectarAll(rs)) == Creditos(rs)
    ensures forall i | 0 <= i < |rs| :: ProyectarAll(rs)[i].codigo == rs[i].codigo
  {
    if rs != [] {
      assert ProyectarAll(rs)[1..] == ProyectarAll(rs[1..]);
      ProyectarAllKeeps(rs[1..]);
    }
  }

  lemma {:induction false} SemRamosAppend(ss: seq<Semestre>, s: Semestre)
    ensures SemRamos(ss + [s]) == SemRamos(ss) + s.ramos
  {
    if ss == [] {
      assert [s][1..] == [];
    } else {
      assert (ss + [s])[1..] == ss[1..] + [s];
      SemRamosAppend(ss[1..], s);
    }
  }

  /** A course is in the flattened list exactly when it is in one of the semesters. */
  lemma {:induction false} SemRamosMember(ss: seq<Semestre>, r: Ramo)
    ensures r in SemRamos(ss) <==> exists i | 0 <= i < |ss| :: r in ss[i].ramos
  {
    if ss != [] {
      SemRamosMember(ss[1..], r);
      if r in SemRamos(ss[1..]) {
        var i :| 0 <= i < |ss[1..]| && r in ss[1..][i].ramos;
        assert r in ss[i + 1].ramos;
      }
      if exists i | 0 <= i < |ss| :: r in ss[i].ramos {
        var i :| 0 <= i < |ss| && r in ss[i].ramos;
        if i > 0 {
          assert r in ss[1..][i - 1].ramos;
        }
      }
    }
  }
}
